/** The drive as a map from sector numbers to sector contents; ata_read and ata_write move one whole sector. */
module Disk {

  class Drive<Sector> {
    var sectors: map<nat, Sector>

    constructor (sectors: map<nat, Sector>)
      ensures this.sectors == sectors
    {
      this.sectors := sectors;
    }
  }

  /** Two drives agree outside a run of sectors. */
  ghost predicate SameElsewhere<Sector>(before: map<nat, Sector>, after: map<nat, Sector>, start: nat, count: nat) {
    && (forall k :: k in before <==> k in after)
    && (forall k :: k in before && !(start <= k < start + count) ==> after[k] == before[k])
  }
}
