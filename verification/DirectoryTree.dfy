/** The packed entries of a directory as the name map the tree is made of. */
module DirectoryTree {
  import opened Common
  import opened Directory
  import Tree

  const DIRECTORY: nat := 1

  /** The names in use. */
  ghost function Names(entries: seq<Entry>): set<string> {
    set e | e in entries && e.kind != ENTRY_FREE :: e.name
  }

  lemma {:induction false} LookupFinds(entries: seq<Entry>, name: string)
    ensures Lookup(entries, name).Some? ==>
      Lookup(entries, name).value in entries && Lookup(entries, name).value.name == name
    ensures Lookup(entries, name).None? ==> forall e :: e in entries ==> e.name != name
    decreases |entries|
  {
    if entries != [] {
      LookupFinds(entries[1..], name);
      assert forall e :: e in entries ==> e == entries[0] || e in entries[1..];
    }
  }

  /** A name is in use exactly when looking it up succeeds. */
  lemma NamesAreFound(entries: seq<Entry>, name: string)
    requires FreeUnnamed(entries) && name != ""
    ensures name in Names(entries) <==> Lookup(entries, name).Some?
  {
    LookupFinds(entries, name);
    if Lookup(entries, name).Some? {
      var e := Lookup(entries, name).value;
      var i :| 0 <= i < |entries| && entries[i] == e;
      assert e.kind != ENTRY_FREE;
    }
  }

  /** The names a resolver can ask for, which are not empty, with the inodes they lead to. */
  ghost function AsMap(entries: seq<Entry>): map<string, nat> {
    map name | name in Names(entries) && name != "" && Lookup(entries, name).Some? :: Lookup(entries, name).value.inode
  }

  /** Adding an entry of a new name adds that name to the map and changes nothing else in it. */
  lemma AddedAsMap(entries: seq<Entry>, entry: Entry)
    requires FreeUnnamed(entries) && entry.kind != ENTRY_FREE && Lookup(entries, entry.name).None?
    ensures FreeUnnamed(Added(entries, entry))
    ensures entry.name != "" ==> AsMap(Added(entries, entry)) == AsMap(entries)[entry.name := entry.inode]
    ensures entry.name == "" ==> AsMap(Added(entries, entry)) == AsMap(entries)
  {
    var added := Added(entries, entry);
    assert forall e :: e in added ==> e == entry || e in entries;
    forall name | name != ""
      ensures name in AsMap(added) <==> name == entry.name || name in AsMap(entries)
      ensures name in AsMap(added) ==>
        AsMap(added)[name] == if name == entry.name then entry.inode else AsMap(entries)[name]
    {
      NamesAreFound(entries, name);
      NamesAreFound(added, name);
      AddedLookup(entries, entry, name);
    }
  }

  lemma AddedLookup(entries: seq<Entry>, entry: Entry, name: string)
    requires FreeUnnamed(entries) && Lookup(entries, entry.name).None? && name != ""
    ensures Lookup(Added(entries, entry), name) == if name == entry.name then Some(entry) else Lookup(entries, name)
  {
    if entry.name != "" {
      AddThenLookup(entries, entry, name);
    } else {
      // no place is free, since it would bear the empty name
      LookupFinds(entries, "");
      LookupAppend(entries, entry, name);
    }
  }

  // ----- all directories ----------------------------------------------------------------------

  /** The entries of every directory inode. */
  type Listing = map<nat, seq<Entry>>

  ghost function DirsOf(listing: Listing): Tree.Dirs {
    map d | d in listing :: AsMap(listing[d])
  }

  ghost predicate FreesUnnamed(listing: Listing) {
    forall d :: d in listing ==> FreeUnnamed(listing[d])
  }

  /** Finding a name on disk is finding it in the tree. */
  lemma FindIsLookup(listing: Listing, d: nat, name: string)
    requires FreesUnnamed(listing) && name != ""
    ensures Tree.Find(DirsOf(listing), d, name) ==
      if d in listing && Lookup(listing[d], name).Some? then Some(Lookup(listing[d], name).value.inode) else None
  {
    if d in listing { NamesAreFound(listing[d], name); }
  }

  /** What a new directory holds. */
  function Dots(made: nat, parent: nat): seq<Entry> {
    [Entry(made, DIRECTORY, "."), Entry(parent, DIRECTORY, "..")]
  }

  lemma DotsAdded(made: nat, parent: nat)
    ensures Added(Added([], Entry(made, DIRECTORY, ".")), Entry(parent, DIRECTORY, "..")) == Dots(made, parent)
    ensures FreeUnnamed(Dots(made, parent)) && AsMap(Dots(made, parent)) == map["." := made, ".." := parent]
  {
    var one := Added([], Entry(made, DIRECTORY, "."));
    assert one == [Entry(made, DIRECTORY, ".")] && one[1..] == [];
    assert Lookup(one, "..") == Lookup([], "..");
    AddedAsMap([], Entry(made, DIRECTORY, "."));
    AddedAsMap(one, Entry(parent, DIRECTORY, ".."));
    assert AsMap([]) == map[];
  }

  /** The three entries fs_directory_create adds are the new directory of the tree. */
  lemma CreateEntriesMake(listing: Listing, parent: nat, name: Name, made: nat)
    requires FreesUnnamed(listing) && parent in listing && parent != made
    requires name != "" && Lookup(listing[parent], name).None?
    ensures var entries := Added(listing[parent], Entry(made, DIRECTORY, name));
      var listing' := listing[parent := entries][made := Dots(made, parent)];
      FreesUnnamed(listing') && DirsOf(listing') == Tree.MakeIn(DirsOf(listing), parent, name, made)
  {
    hide Added, AsMap, FreeUnnamed, Dots, Lookup;
    AddedAsMap(listing[parent], Entry(made, DIRECTORY, name));
    DotsAdded(made, parent);
  }
}
