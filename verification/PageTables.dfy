/**
 * Page-table entries and tables as os/mm/vmm.c stores them: 64-bit words with a frame field and
 * flags, in physical memory that maps the address of a table to its 512 entries.
 */
module PageTables {
  import opened Common
  import opened Bits
  import opened RadixTree

  const PAGE_SIZE: nat := 0x1000
  const PRESENT: nat := 0x1
  const READ_WRITE: nat := 0x2
  const FRAME_MASK: nat := 0x000F_FFFF_FFFF_F000

  // ----- entries ------------------------------------------------------------------------------

  /** vmm_p*_get_address and vmm_pte_get_frame */
  function GetAddress(entry: nat): nat {
    And(entry, FRAME_MASK)
  }

  /** vmm_p*_set_address and vmm_pte_set_frame */
  function SetAddress(entry: nat, address: nat): nat {
    Pow2Constants();
    Or(And(entry, Not(FRAME_MASK, 64)), And(address, FRAME_MASK))
  }

  predicate Present(entry: nat) {
    And(entry, PRESENT) != 0
  }

  /** The address field set, then the present and writable flags added. */
  function LinkEntry(entry: nat, address: nat): nat {
    Or(Or(SetAddress(entry, address), PRESENT), READ_WRITE)
  }

  lemma FrameMaskBits(k: nat)
    ensures Bit(FRAME_MASK, k) == (12 <= k < 52)
  {
    Pow2Constants();
    AllOnesBit(12, k);
    NotBit(Pow2(12) - 1, 52, k);
  }

  lemma FlagBits(k: nat)
    ensures Bit(PRESENT, k) == (k == 0)
    ensures Bit(READ_WRITE, k) == (k == 1)
  {
    PowBit(0, k);
    PowBit(1, k);
  }

  lemma LowBitsClear(a: nat, k: nat)
    requires a % PAGE_SIZE == 0 && k < 12
    ensures !Bit(a, k)
  {
    Pow2Constants();
    MaskIsMod(a, 12);
    AndBit(a, Pow2(12) - 1, k);
    AllOnesBit(12, k);
    ZeroBit(k);
  }

  /** Only the frame field of an entry carries over, and a page-aligned 52-bit address fits it exactly. */
  lemma AlignedAddressFits(address: nat)
    requires address % PAGE_SIZE == 0 && address < 0x10_0000_0000_0000
    ensures GetAddress(address) == address
  {
    Pow2Constants();
    forall k: nat ensures Bit(GetAddress(address), k) == Bit(address, k) {
      AndBit(address, FRAME_MASK, k);
      FrameMaskBits(k);
      if k < 12 { LowBitsClear(address, k); }
      if k >= 52 { HighBitsClear(address, 52, k); }
    }
    BitsDetermine(GetAddress(address), address);
  }

  lemma SetAddressBits(entry: nat, address: nat, k: nat)
    requires entry < UINT64
    ensures Bit(SetAddress(entry, address), k) == if 12 <= k < 52 then Bit(address, k) else Bit(entry, k)
  {
    Pow2Constants();
    OrBit(And(entry, Not(FRAME_MASK, 64)), And(address, FRAME_MASK), k);
    AndBit(entry, Not(FRAME_MASK, 64), k);
    AndBit(address, FRAME_MASK, k);
    NotBit(FRAME_MASK, 64, k);
    FrameMaskBits(k);
    if k >= 64 { HighBitsClear(entry, 64, k); }
  }

  lemma PresentIsBitZero(entry: nat)
    ensures Present(entry) == Bit(entry, 0)
  {
    TestBitIsBit(entry, 0);
  }

  /** Setting the address keeps every other bit of the entry, the present flag among them. */
  lemma SetAddressEffect(entry: nat, address: nat)
    requires entry < UINT64
    ensures GetAddress(SetAddress(entry, address)) == GetAddress(address)
    ensures Present(SetAddress(entry, address)) == Present(entry)
    ensures SetAddress(entry, address) < UINT64
  {
    var e := SetAddress(entry, address);
    forall k: nat ensures Bit(GetAddress(e), k) == Bit(GetAddress(address), k) {
      AndBit(e, FRAME_MASK, k);
      AndBit(address, FRAME_MASK, k);
      SetAddressBits(entry, address, k);
      FrameMaskBits(k);
    }
    BitsDetermine(GetAddress(e), GetAddress(address));
    PresentIsBitZero(e);
    PresentIsBitZero(entry);
    SetAddressBits(entry, address, 0);
    Pow2Constants();
    AndBound(entry, Not(FRAME_MASK, 64));
    AndBound(address, FRAME_MASK);
    OrBound(And(entry, Not(FRAME_MASK, 64)), And(address, FRAME_MASK), 64);
  }

  lemma LinkEntryEffect(entry: nat, address: nat)
    requires entry < UINT64
    ensures GetAddress(LinkEntry(entry, address)) == GetAddress(address)
    ensures Present(LinkEntry(entry, address))
    ensures LinkEntry(entry, address) < UINT64
  {
    var e := SetAddress(entry, address);
    SetAddressEffect(entry, address);
    forall k: nat ensures Bit(GetAddress(LinkEntry(entry, address)), k) == Bit(GetAddress(address), k) {
      AndBit(LinkEntry(entry, address), FRAME_MASK, k);
      OrBit(Or(e, PRESENT), READ_WRITE, k);
      OrBit(e, PRESENT, k);
      AndBit(e, FRAME_MASK, k);
      FlagBits(k);
      FrameMaskBits(k);
    }
    BitsDetermine(GetAddress(LinkEntry(entry, address)), GetAddress(address));
    OrBit(Or(e, PRESENT), READ_WRITE, 0);
    OrBit(e, PRESENT, 0);
    FlagBits(0);
    PresentIsBitZero(LinkEntry(entry, address));
    Pow2Constants();
    OrBound(e, PRESENT, 64);
    OrBound(Or(e, PRESENT), READ_WRITE, 64);
  }

  /** Every bit of a linked entry: the frame field of the address, P and R/W set, all the others as before. */
  lemma LinkEntryBits(entry: nat, address: nat, k: nat)
    requires entry < UINT64
    ensures Bit(LinkEntry(entry, address), k) ==
      if 12 <= k < 52 then Bit(address, k) else Bit(entry, k) || k == 0 || k == 1
  {
    OrBit(Or(SetAddress(entry, address), PRESENT), READ_WRITE, k);
    OrBit(SetAddress(entry, address), PRESENT, k);
    SetAddressBits(entry, address, k);
    FlagBits(k);
  }

  lemma {:induction false} AndAbove(a: nat, m: nat, k: nat)
    ensures And(a, Pow2(k) * m) == Pow2(k) * And(Shr(a, k), m)
  {
    hide And;
    if k > 0 {
      var low, rest := Pow2(k - 1), And(Shr(a / 2, k - 1), m);
      AndAbove(a / 2, m, k - 1);
      AndEven(a, low * m);
      DoubleProduct(low, m);
      DoubleProduct(low, rest);
    } else {
      assert Pow2(0) * m == m;
    }
  }

  lemma AndEven(a: nat, m: nat)
    ensures And(a, 2 * m) == 2 * And(a / 2, m)
  {
  }

  /** The frame field of any address is the frame the address lies in, below 2^52. */
  lemma AddressIsFrame(address: nat)
    ensures GetAddress(address) == 0x1000 * (address / 0x1000 % 0x100_0000_0000) < 0x10_0000_0000_0000
  {
    Pow2Constants();
    assert Pow2(40) == 0x100_0000_0000 by { PowAdd(32, 8); }
    AndAbove(address, 0xFF_FFFF_FFFF, 12);
    MaskIsMod(address, 12);
    MaskIsMod(address / 0x1000, 40);
  }

  /** The only entries the code stores: zero, or a frame with P and R/W and nothing else. */
  predicate Stored(entry: nat) {
    entry == 0 || entry == GetAddress(entry) + 3
  }

  lemma AddressAligned(address: nat)
    ensures GetAddress(address) % 4 == 0
  {
    AddressIsFrame(address);
  }

  lemma FlagsAdd(g: nat)
    requires g % 4 == 0
    ensures Or(Or(g, PRESENT), READ_WRITE) == g + 3
  {
    OrOne(g);
    OrOne(g / 2);
    assert Or(g + 1, 2) == 1 + 2 * Or(g / 2, 1);
  }

  lemma OrOne(g: nat)
    requires g % 2 == 0
    ensures Or(g, 1) == g + 1
  {
  }

  /** A frame with both flags has no other bit, the page-size and no-execute ones among them. */
  lemma StoredBits(entry: nat, k: nat)
    requires Stored(entry) && entry != 0
    ensures Bit(entry, k) <==> if 12 <= k < 52 then Bit(GetAddress(entry), k) else k == 0 || k == 1
  {
    hide And, Or, Bit;
    var g := GetAddress(entry);
    AddressAligned(entry);
    FlagsAdd(g);
    OrBit(Or(g, PRESENT), READ_WRITE, k);
    OrBit(g, PRESENT, k);
    FlagBits(k);
    AndBit(entry, FRAME_MASK, k);
    FrameMaskBits(k);
  }

  lemma StoredPresent(entry: nat)
    requires Stored(entry)
    ensures Present(entry) <==> entry != 0
    ensures entry != 0 ==> And(entry, READ_WRITE) != 0 && entry < UINT64
  {
    AbsentZero();
    if entry != 0 {
      StoredBits(entry, 0);
      StoredBits(entry, 1);
      PresentIsBitZero(entry);
      WriteFlagIsBitOne(entry);
      AddressIsFrame(entry);
    }
  }

  lemma WriteFlagIsBitOne(entry: nat)
    ensures And(entry, READ_WRITE) != 0 <==> Bit(entry, 1)
  {
    assert Pow2(1) == 2;
    TestBitIsBit(entry, 1);
  }

  /** Both ways in which the code stores an entry leave exactly the frame of the address and the two flags. */
  lemma EntriesStored(entry: nat, address: nat)
    requires Stored(entry)
    ensures !Present(entry) ==> LinkEntry(entry, address) == GetAddress(address) + 3
    ensures Present(entry) ==> SetAddress(entry, address) == GetAddress(address) + 3
    ensures Stored(GetAddress(address) + 3) && GetAddress(GetAddress(address) + 3) == GetAddress(address)
    ensures Stored(0)
  {
    StoredPresent(entry);
    AddressAligned(address);
    FlagsAdd(GetAddress(address));
    assert SetAddress(0, address) == GetAddress(address);
    LinkEntryEffect(0, address);
    if entry != 0 {
      forall k: nat ensures Bit(SetAddress(entry, address), k) == Bit(LinkEntry(0, address), k) {
        SetAddressBits(entry, address, k);
        LinkEntryBits(0, address, k);
        StoredBits(entry, k);
        ZeroBit(k);
      }
      BitsDetermine(SetAddress(entry, address), LinkEntry(0, address));
    }
  }

  /** An entry, if present, allows writing. */
  predicate Writable(entry: nat) {
    Present(entry) ==> And(entry, READ_WRITE) != 0
  }

  /** Whatever flags an entry has, both ways of storing an address leave it writable, if it was when present. */
  lemma EntriesWritable(entry: nat, address: nat)
    requires entry < UINT64
    ensures Writable(LinkEntry(entry, address))
    ensures Present(entry) && Writable(entry) ==> Writable(SetAddress(entry, address))
  {
    hide SetAddress, LinkEntry, Bit, And, Or;
    WriteFlagIsBitOne(entry);
    WriteFlagIsBitOne(SetAddress(entry, address));
    SetAddressBits(entry, address, 1);
    WriteFlagIsBitOne(LinkEntry(entry, address));
    LinkEntryBits(entry, address, 1);
  }

  // ----- addresses ----------------------------------------------------------------------------

  /** The page number the paging hardware takes from a virtual address: bits 12 to 47. */
  function PageOf(virtualAddress: nat): nat {
    virtualAddress / PAGE_SIZE % PAGE_COUNT
  }

  /** The C code's (virtual_address >> shift) & 0x1FF. */
  function ShiftAndMask(virtualAddress: nat, shift: nat): nat {
    And(Shr(virtualAddress, shift), 0x1FF)
  }

  /** The four shifts of the C code pick the four base-512 digits of the page number. */
  lemma ShiftsAreIndices(va: nat)
    ensures ShiftAndMask(va, 39) == IndexAt(4, PageOf(va))
    ensures ShiftAndMask(va, 30) == IndexAt(3, PageOf(va))
    ensures ShiftAndMask(va, 21) == IndexAt(2, PageOf(va))
    ensures ShiftAndMask(va, 12) == IndexAt(1, PageOf(va))
  {
    MaskOfShift(va, 39);
    MaskOfShift(va, 30);
    MaskOfShift(va, 21);
    MaskOfShift(va, 12);
    Pow2Constants();
    PowAdd(12, 9);
    PowAdd(21, 9);
    PowAdd(30, 9);
    DigitsOfPage(va);
  }

  lemma DigitsOfPage(va: nat)
    ensures IndexAt(4, PageOf(va)) == va / 0x80_0000_0000 % 512
    ensures IndexAt(3, PageOf(va)) == va / 0x4000_0000 % 512
    ensures IndexAt(2, PageOf(va)) == va / 0x20_0000 % 512
    ensures IndexAt(1, PageOf(va)) == va / 0x1000 % 512
  {
    var y := va / 0x1000;
    TopDigit(y);
    SecondDigit(y);
    ThirdDigit(y);
    LowDigit(y);
    ShiftsCompose(va);
  }

  lemma ShiftsCompose(va: nat)
    ensures va / 0x1000 / 0x800_0000 == va / 0x80_0000_0000
    ensures va / 0x1000 / 0x4_0000 == va / 0x4000_0000
    ensures va / 0x1000 / 0x200 == va / 0x20_0000
  {
  }

  lemma LowDigit(y: nat)
    ensures y % PAGE_COUNT % 512 == y % 512
  {
    var q, r := y / PAGE_COUNT, y % PAGE_COUNT;
    assert y == 512 * (0x800_0000 * q) + r;
  }

  lemma TopDigit(y: nat)
    ensures y % PAGE_COUNT / 0x800_0000 % 512 == y / 0x800_0000 % 512
  {
    var q, r := y / PAGE_COUNT, y % PAGE_COUNT;
    assert y / 0x800_0000 == 512 * q + r / 0x800_0000;
  }

  lemma SecondDigit(y: nat)
    ensures y % PAGE_COUNT / 0x4_0000 % 512 == y / 0x4_0000 % 512
  {
    var q, r := y / PAGE_COUNT, y % PAGE_COUNT;
    var a, b := r / 0x4_0000, r % 0x4_0000;
    assert y == 0x4_0000 * (0x4_0000 * q + a) + b;
    DivModUnique(y, 0x4_0000, 0x4_0000 * q + a, b);
    assert (512 * (512 * q) + a) % 512 == a % 512;
  }

  lemma ThirdDigit(y: nat)
    ensures y % PAGE_COUNT / 0x200 % 512 == y / 0x200 % 512
  {
    var q, r := y / PAGE_COUNT, y % PAGE_COUNT;
    assert y / 0x200 == 0x800_0000 * q + r / 0x200;
  }

  lemma MaskOfShift(va: nat, shift: nat)
    ensures ShiftAndMask(va, shift) == va / Pow2(shift) % 512
  {
    assert Pow2(9) == 512;
    MaskIsMod(va, shift);
    MaskIsMod(Shr(va, shift), 9);
  }

  // ----- tables in memory ---------------------------------------------------------------------

  type Memory = map<nat, seq<nat>>

  ghost predicate MemoryValid(mem: Memory) {
    forall t :: t in mem ==> |mem[t]| == ENTRY_COUNT && forall i :: 0 <= i < ENTRY_COUNT ==> mem[t][i] < UINT64
  }

  function Entry(mem: Memory, table: nat, i: nat): nat {
    if table in mem && i < |mem[table]| then mem[table][i] else 0
  }

  /** The hardware's walk over the stored words. */
  function HardwareWalk(mem: Memory, table: nat, level: nat, page: nat): Option<nat>
    requires 1 <= level <= 4
    decreases level
  {
    var e := Entry(mem, table, IndexAt(level, page));
    if !Present(e) then None
    else if level == 1 then Some(GetAddress(e))
    else HardwareWalk(mem, GetAddress(e), level - 1, page)
  }

  function DecodeEntry(entry: nat): Option<nat> {
    if Present(entry) then Some(GetAddress(entry)) else None
  }

  function DecodeTable(entries: seq<nat>): seq<Option<nat>> {
    seq(|entries|, i requires 0 <= i < |entries| => DecodeEntry(entries[i]))
  }

  /** The tree the stored words spell out. */
  function Decode(mem: Memory): Tree {
    map t | t in mem :: DecodeTable(mem[t])
  }

  /** The hardware's walk over words is the walk over the tree they spell out. */
  lemma {:induction false} WalkDecodes(mem: Memory, table: nat, level: nat, page: nat)
    requires 1 <= level <= 4
    ensures HardwareWalk(mem, table, level, page) == WalkFrom(Decode(mem), table, level, page)
    decreases level
  {
    var e := Entry(mem, table, IndexAt(level, page));
    AbsentZero();
    assert DecodeEntry(e) == Next(Decode(mem), table, IndexAt(level, page));
    if Present(e) && level > 1 {
      WalkDecodes(mem, GetAddress(e), level - 1, page);
    }
  }

  lemma AbsentZero()
    ensures DecodeEntry(0) == None
  {
  }

  function StoreEntry(mem: Memory, table: nat, i: nat, entry: nat): Memory
    requires table in mem && i < |mem[table]|
  {
    var entries: seq<nat> := mem[table][i := entry];
    mem[table := entries]
  }

  lemma StoredEntry(mem: Memory, table: nat, i: nat, entry: nat, t: nat, j: nat)
    requires table in mem && i < |mem[table]|
    ensures Entry(StoreEntry(mem, table, i, entry), t, j) == if t == table && j == i then entry else Entry(mem, t, j)
  {
  }

  function ZeroTable(): seq<nat> {
    seq(ENTRY_COUNT, _ => 0)
  }

  lemma StoreDecodes(mem: Memory, table: nat, i: nat, entry: nat, target: nat)
    requires MemoryValid(mem) && table in mem && i < ENTRY_COUNT && entry < UINT64
    requires Present(entry) && GetAddress(entry) == target
    ensures MemoryValid(StoreEntry(mem, table, i, entry))
    ensures Decode(StoreEntry(mem, table, i, entry)) == SetNext(Decode(mem), table, i, target)
  {
    assert DecodeEntry(entry) == Some(target);
    assert DecodeTable(mem[table][i := entry]) == DecodeTable(mem[table])[i := Some(target)];
  }

  lemma ZeroDecodes(mem: Memory, block: nat)
    requires MemoryValid(mem)
    ensures MemoryValid(mem[block := ZeroTable()])
    ensures Decode(mem[block := ZeroTable()]) == Decode(mem)[block := EmptyTable()]
  {
    AbsentZero();
    assert DecodeTable(ZeroTable()) == EmptyTable();
  }
}
