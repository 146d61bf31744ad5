/**
 * What fs_directory_create does to the contents of a volume, as a value: the entries of every directory, the inode
 * numbers still free in the order they are handed out, and the number of free data blocks.
 */
module CreateModel {
  import opened Common
  import opened PathModel
  import opened Tree
  import opened Directory
  import opened DirectoryTree

  const ENTRY_EXISTS: nat := 253

  datatype Contents = Contents(listing: Listing, free: seq<nat>, blocks: nat)

  ghost function Graph(c: Contents): Dirs {
    DirsOf(c.listing)
  }

  /** No entry in use names the inode. */
  ghost predicate NotNamed(entries: seq<Entry>, n: nat) {
    forall i :: 0 <= i < |entries| && entries[i].kind != ENTRY_FREE ==> entries[i].inode != n
  }

  /** The free numbers are different ones, and no directory has or names them. */
  ghost predicate Sound(c: Contents) {
    && FreesUnnamed(c.listing)
    && (forall i, j :: 0 <= i < j < |c.free| ==> c.free[i] != c.free[j])
    && (forall i :: 0 <= i < |c.free| ==> c.free[i] !in c.listing)
    && forall i, d :: 0 <= i < |c.free| && d in c.listing ==> NotNamed(c.listing[d], c.free[i])
  }

  /** fs_directory_entry_find; an inode that is no directory has no entries. */
  function LookupIn(listing: Listing, d: nat, name: string): Option<Entry> {
    if d in listing then Lookup(listing[d], name) else None
  }

  // ----- one directory ------------------------------------------------------------------------

  /**
   * What a new directory needs: a free inode, a parent that is a directory and has a place, a name that fits an entry,
   * and one block of its own besides the one the parent may need.
   */
  predicate CanCreate(c: Contents, parent: nat, name: string) {
    && c.free != [] && parent in c.listing && |name| <= MAX_NAME
    && 1 <= c.blocks && CanPlace(c.listing[parent], c.blocks - 1)
  }

  function AfterCreate(c: Contents, parent: nat, name: string): Contents
    requires CanCreate(c, parent, name)
  {
    var n, entries := c.free[0], c.listing[parent];
    Contents(c.listing[parent := Added(entries, Entry(n, DIRECTORY, name))][n := Dots(n, parent)],
             c.free[1..], c.blocks - 1 - BlocksTaken(entries))
  }

  /** The result of fs_directory_create and what it leaves, or the fault. */
  datatype Made = Made(status: nat, after: Contents) | MadeFault

  function CreateIn(c: Contents, parent: nat, name: string): Made {
    if LookupIn(c.listing, parent, name).Some? then Made(ENTRY_EXISTS, c)
    else if CanCreate(c, parent, name) then Made(1, AfterCreate(c, parent, name))
    else MadeFault
  }

  /** Every entry of the parent is in use. */
  predicate NoneFree(entries: seq<Entry>) {
    forall i :: 0 <= i < |entries| ==> entries[i].kind != 254
  }

  /**
   * The answer, entry by entry. A name in use is answered with 253 and nothing changes. Where an inode, a block, a
   * place or room for the name is missing the code leaves its data.
   */
  lemma CreateInAnswers(c: Contents, parent: nat, name: string)
    requires parent in c.listing && |c.listing[parent]| <= 64
    ensures var entries := c.listing[parent];
      var used := exists i :: 0 <= i < |entries| && entries[i].name == name;
      && (used ==> CreateIn(c, parent, name) == Made(253, c))
      && (!used ==>
            (CreateIn(c, parent, name) == MadeFault <==>
               c.free == [] || |name| > 53 || c.blocks == 0
               || (NoneFree(entries) && (|entries| == 64 || (|entries| % 8 == 0 && c.blocks == 1)))))
      && (!used && CreateIn(c, parent, name) != MadeFault ==>
            CanCreate(c, parent, name) && CreateIn(c, parent, name) == Made(1, AfterCreate(c, parent, name)))
  {
    hide FirstFree, Lookup, CanPlace, AfterCreate;
    LookupIsFirst(c.listing[parent], name);
    if c.blocks > 0 { PlaceLeft(c.listing[parent], c.blocks - 1); }
  }

  /** The entry takes the first free place, or the one behind the last, which costs a block when the last is full. */
  lemma PlacedInParent(entries: seq<Entry>, entry: Entry)
    ensures NoneFree(entries) ==> Added(entries, entry) == entries + [entry]
    ensures forall i ::
      0 <= i < |entries| && entries[i].kind == 254 && NoneFree(entries[..i]) ==>
      Added(entries, entry) == entries[i := entry]
    ensures BlocksTaken(entries) == if NoneFree(entries) && |entries| % 8 == 0 then 1 else 0
  {
    hide FirstFree, Added, BlocksTaken;
    WhereItGoes(entries, entry);
    forall i | 0 <= i < |entries| && entries[i].kind == 254 && NoneFree(entries[..i])
      ensures Added(entries, entry) == entries[i := entry]
    {
      forall k | 0 <= k < i ensures entries[k].kind != 254 { assert entries[..i][k] == entries[k]; }
    }
    FirstNotInUse(entries);
  }

  /** The new directory has its two dots, and its entry takes the first free place in the parent or the end. */
  lemma AfterCreateMeans(c: Contents, parent: nat, name: string)
    requires Sound(c) && CanCreate(c, parent, name)
    ensures var entries, n, after := c.listing[parent], c.free[0], AfterCreate(c, parent, name);
      && after.listing.Keys == c.listing.Keys + {n}
      && after.listing[n] == [Entry(n, 1, "."), Entry(parent, 1, "..")]
      && (NoneFree(entries) ==> after.listing[parent] == entries + [Entry(n, 1, name)])
      && (forall i ::
            0 <= i < |entries| && entries[i].kind == 254 && NoneFree(entries[..i]) ==>
            after.listing[parent] == entries[i := Entry(n, 1, name)])
      && (forall d :: d in c.listing && d != parent ==> after.listing[d] == c.listing[d])
      && after.free == c.free[1..]
      && after.blocks == c.blocks - (if NoneFree(entries) && |entries| % 8 == 0 then 2 else 1)
  {
    hide NoneFree, Added, CanPlace, BlocksTaken, NotNamed, FreesUnnamed;
    var n := c.free[0];
    assert n !in c.listing;
    PlacedInParent(c.listing[parent], Entry(n, 1, name));
  }

  lemma {:induction false} FirstNotInUse(entries: seq<Entry>)
    ensures !NoneFree(entries) ==>
      exists i :: 0 <= i < |entries| && entries[i].kind == 254 && forall k :: 0 <= k < i ==> entries[k].kind != 254
  {
    if !NoneFree(entries) {
      var i := FirstFree(entries, 0);
      assert entries[i].kind == 254;
    }
  }

  /**
   * fs_directory_create. The fault stands for a path with no parent text, and for everything a new directory needs and
   * does not have, none of which the code checks. A parent with inode number 255 passes for none.
   */
  ghost function Create(c: Contents, path: string, cwd: nat): Made {
    match ParentText(path, 0)
    case None => MadeFault
    case Some(parentText) =>
      match PathInode(Graph(c), parentText, cwd)
      case None => Made(0, c)
      case Some(parent) =>
        if parent == NONE then Made(0, c)
        else if NameText(path).None? then MadeFault
        else CreateIn(c, parent, NameText(path).value)
  }

  lemma {:induction false} UpToEmptyCanonical(stack: seq<string>)
    requires Canonical(stack)
    ensures UpToEmpty(stack) == stack
  {
    if stack != [] {
      UpToEmptyCanonical(stack[1..]);
      assert [stack[0]] + stack[1..] == stack;
    }
  }

  /** Resolving the text of a canonical path walks its names from the root. */
  lemma PathOfText(dirs: Dirs, stack: seq<string>, cwd: nat)
    requires Canonical(stack)
    ensures PathInode(dirs, Text(stack), cwd) == Walk(dirs, ROOT, stack)
  {
    TextSegments(stack);
    UpToEmptyCanonical(stack);
  }

  /** On a canonical path the parent and the name are those of the stack. */
  lemma CreateOnCanonical(c: Contents, stack: seq<string>, cwd: nat)
    requires Canonical(stack) && stack != [] && |Joined(Init(stack))| != NONE
    ensures Create(c, Text(stack), cwd) ==
      match Walk(Graph(c), ROOT, Init(stack))
      case None => Made(0, c)
      case Some(parent) => if parent == NONE then Made(0, c) else CreateIn(c, parent, Last(stack))
  {
    hide CreateIn, ParentText, NameText;
    ParentFoundIff(stack);
    ParentAndName(stack);
    InitCanonical(stack);
    PathOfText(Graph(c), Init(stack), cwd);
  }

  // ----- what creating keeps ------------------------------------------------------------------

  /** The graph is a tree, and everything that resolved before still resolves to the same inode. */
  ghost predicate StillTree(c: Contents, c': Contents) {
    Sound(c') && IsTree(Graph(c')) && WalksKept(Graph(c), Graph(c'))
  }

  lemma StillTreeTwice(c0: Contents, c1: Contents, c2: Contents)
    requires StillTree(c0, c1) && StillTree(c1, c2)
    ensures StillTree(c0, c2)
  {
    hide Walk, Sound, IsTree;
    forall stack | Walk(Graph(c0), ROOT, stack).Some?
      ensures Walk(Graph(c2), ROOT, stack) == Walk(Graph(c0), ROOT, stack)
    {
      assert Walk(Graph(c1), ROOT, stack) == Walk(Graph(c0), ROOT, stack);
    }
  }

  /** A free number is the inode of nothing in the tree. */
  lemma FreeUnused(c: Contents, i: nat)
    requires Sound(c) && i < |c.free| && ROOT in c.listing
    ensures Unused(Graph(c), c.free[i])
  {
    hide FreesUnnamed;
    var dirs, n := Graph(c), c.free[i];
    assert n !in c.listing;
    forall d, name | d in dirs && name in dirs[d] ensures dirs[d][name] != n {
      var entries := c.listing[d];
      assert NotNamed(entries, n) && FreeUnnamed(entries) by {
        assert FreesUnnamed(c.listing);
        FreesUnnamedAt(c.listing, d);
      }
      LookupFinds(entries, name);
      var e := Lookup(entries, name).value;
      var k :| 0 <= k < |entries| && entries[k] == e;
      assert entries[k].kind != ENTRY_FREE;
    }
  }

  lemma FreesUnnamedAt(listing: Listing, d: nat)
    requires FreesUnnamed(listing) && d in listing
    ensures FreeUnnamed(listing[d])
  {
  }

  lemma AddedNotNamed(entries: seq<Entry>, entry: Entry, n: nat)
    requires NotNamed(entries, n) && entry.inode != n
    ensures NotNamed(Added(entries, entry), n)
  {
  }

  lemma AddedUnnamed(entries: seq<Entry>, entry: Entry)
    requires FreeUnnamed(entries) && entry.kind != ENTRY_FREE
    ensures FreeUnnamed(Added(entries, entry))
  {
  }

  /** An entry that names no free inode can be added to any directory. */
  lemma AddSound(c: Contents, d: nat, entry: Entry, blocks: nat)
    requires Sound(c) && d in c.listing && entry.kind != ENTRY_FREE && entry.inode !in c.free
    ensures Sound(Contents(c.listing[d := Added(c.listing[d], entry)], c.free, blocks))
  {
    hide Added, NotNamed, FreeUnnamed;
    AddedUnnamed(c.listing[d], entry);
    forall i | 0 <= i < |c.free| ensures NotNamed(Added(c.listing[d], entry), c.free[i]) {
      AddedNotNamed(c.listing[d], entry, c.free[i]);
    }
  }

  lemma CreateSound(c: Contents, parent: nat, name: string)
    requires Sound(c) && CanCreate(c, parent, name) && LookupIn(c.listing, parent, name).None?
    ensures Sound(AfterCreate(c, parent, name))
  {
    hide Added, CanPlace, BlocksTaken, Lookup, NotNamed, FreeUnnamed, Dots;
    var n, entries := c.free[0], c.listing[parent];
    var entry := Entry(n, DIRECTORY, name);
    var c' := AfterCreate(c, parent, name);
    AddedAsMap(entries, entry);
    DotsAdded(n, parent);
    forall i, d | 0 <= i < |c'.free| && d in c'.listing
      ensures c'.free[i] !in c'.listing && NotNamed(c'.listing[d], c'.free[i])
    {
      assert c'.free[i] == c.free[i + 1] && c.free[0] != c.free[i + 1] && c.free[i + 1] !in c.listing;
      AddedNotNamed(entries, entry, c'.free[i]);
      DotsNotNamed(n, parent, c'.free[i]);
    }
  }

  lemma DotsNotNamed(made: nat, parent: nat, n: nat)
    requires n != made && n != parent
    ensures NotNamed(Dots(made, parent), n)
  {
  }

  /** A new directory keeps the tree and every path in it, and is found under its name. */
  lemma CreateKeeps(c: Contents, parent: nat, name: string)
    requires Sound(c) && IsTree(Graph(c)) && CanCreate(c, parent, name)
    requires Plain(name) && LookupIn(c.listing, parent, name).None?
    ensures StillTree(c, AfterCreate(c, parent, name))
    ensures Graph(AfterCreate(c, parent, name)) == MakeIn(Graph(c), parent, name, c.free[0])
    ensures Find(Graph(AfterCreate(c, parent, name)), parent, name) == Some(c.free[0])
  {
    hide IsTree, Unused, Lookup, Added, CanPlace, BlocksTaken, Walk;
    assert ROOT in c.listing && FreesUnnamed(c.listing) && c.free[0] != parent by {
      TreeHasRoot(c);
      assert c.free[0] !in c.listing;
    }
    CreateSound(c, parent, name);
    FreeUnused(c, 0);
    FindIsLookup(c.listing, parent, name);
    CreateEntriesMake(c.listing, parent, name, c.free[0]);
    MakeKeepsTree(Graph(c), parent, name, c.free[0]);
    MakeKeepsWalks(Graph(c), parent, name, c.free[0]);
  }

  lemma TreeHasRoot(c: Contents)
    requires IsTree(Graph(c))
    ensures ROOT in c.listing
  {
  }

  /** Directories that stay as they are keep every path through them, whatever else becomes of the volume. */
  ghost predicate ListingKept(c: Contents, c': Contents) {
    forall d :: d in c.listing ==> d in c'.listing && c'.listing[d] == c.listing[d]
  }

  lemma {:induction false} KeptWalk(c: Contents, c': Contents, from: nat, names: seq<string>)
    requires ListingKept(c, c') && Walk(Graph(c), from, names).Some?
    ensures Walk(Graph(c'), from, names) == Walk(Graph(c), from, names)
    decreases |names|
  {
    hide AsMap;
    if names != [] { KeptWalk(c, c', Find(Graph(c), from, names[0]).value, names[1..]); }
  }

  lemma KeptWalks(c: Contents, c': Contents)
    requires ListingKept(c, c')
    ensures WalksKept(Graph(c), Graph(c'))
  {
    forall names | Walk(Graph(c), ROOT, names).Some?
      ensures Walk(Graph(c'), ROOT, names) == Walk(Graph(c), ROOT, names)
    {
      KeptWalk(c, c', ROOT, names);
    }
  }

  /**
   * What the code leaves where no block is free but the parent has a place: both dots go to a block outside the data
   * region, the new directory stays empty, its entry in the parent is made and true returned. That is no tree.
   */
  lemma FullDiskBreaksTree(c: Contents, parent: nat, name: Name)
    requires Sound(c) && IsTree(Graph(c)) && parent in c.listing && c.free != [] && c.blocks == 0
    requires Plain(name) && Lookup(c.listing[parent], name).None? && CanPlace(c.listing[parent], 0)
    ensures CreateIn(c, parent, name) == MadeFault
    ensures var entries := Added(c.listing[parent], Entry(c.free[0], DIRECTORY, name));
      !IsTree(DirsOf(c.listing[parent := entries][c.free[0] := []]))
  {
    hide Added, Lookup, CanPlace;
    var listing := c.listing[parent := Added(c.listing[parent], Entry(c.free[0], DIRECTORY, name))][c.free[0] := []];
    assert c.free[0] in DirsOf(listing) && !HasDots(DirsOf(listing), c.free[0]);
  }

  // ----- a path and all its ancestors ---------------------------------------------------------

  /** How the forced dir_make ends: all made, refused at a parent numbered 255, or broken off by a fault. */
  datatype Outcome = Done(after: Contents) | Refused(after: Contents) | Broken

  /** One fs_directory_create after the other, down from an inode along the names. */
  ghost function MakeDown(c: Contents, parent: nat, names: seq<string>): Outcome
    decreases |names|
  {
    if names == [] then Done(c)
    else if parent == NONE then Refused(c)
    else if LookupIn(c.listing, parent, names[0]).Some? then
      MakeDown(c, LookupIn(c.listing, parent, names[0]).value.inode, names[1..])
    else if CanCreate(c, parent, names[0]) then MakeDown(AfterCreate(c, parent, names[0]), c.free[0], names[1..])
    else Broken
  }

  /**
   * What is needed to make names under an inode that has none of them: it is a directory with a place, the names fit, a
   * free inode and a block for each name and one more block if the place needs it, and no parent to come is numbered
   * 255.
   */
  ghost predicate Covers(c: Contents, parent: nat, names: seq<string>) {
    && parent in c.listing && CanPlace(c.listing[parent], c.blocks)
    && |names| <= |c.free| && |names| + BlocksTaken(c.listing[parent]) <= c.blocks
    && (forall i :: 0 <= i < |names| ==> |names[i]| <= MAX_NAME)
    && forall i :: 0 <= i < |names| - 1 ==> c.free[i] != NONE
  }

  lemma DotsPlaces(made: nat, parent: nat, blocks: nat)
    ensures CanPlace(Dots(made, parent), blocks) && BlocksTaken(Dots(made, parent)) == 0
  {
    var entries := Dots(made, parent);
    assert entries[0].kind == DIRECTORY && entries[1].kind == DIRECTORY;
    assert FirstFree(entries, 0) == 2;
  }

  lemma DotsNames(made: nat, parent: nat, name: string)
    requires Plain(name)
    ensures Lookup(Dots(made, parent), name).None?
  {
    var entries := Dots(made, parent);
    assert entries[0].name == "." && entries[1..][0].name == ".." && entries[1..][1..] == [];
    assert Lookup(entries, name) == Lookup(entries[1..], name) == Lookup(entries[1..][1..], name);
  }

  lemma CoversStep(c: Contents, parent: nat, names: seq<string>)
    requires names != [] && CanCreate(c, parent, names[0])
    requires |names| > 1 ==> c.free[0] != NONE
    ensures Covers(c, parent, names) <==> Covers(AfterCreate(c, parent, names[0]), c.free[0], names[1..])
  {
    hide Lookup, Added, FirstFree;
    var c', n := AfterCreate(c, parent, names[0]), c.free[0];
    hide Dots;
    DotsPlaces(n, parent, c'.blocks);
    assert forall i :: 0 <= i < |c'.free| ==> c'.free[i] == c.free[i + 1];
    if Covers(c', n, names[1..]) {
      forall i | 0 <= i < |names| ensures |names[i]| <= MAX_NAME {
        if i > 0 { assert names[1..][i - 1] == names[i]; }
      }
      forall i | 0 <= i < |names| - 1 ensures c.free[i] != NONE {
        if i > 0 { assert c'.free[i - 1] == c.free[i]; }
      }
    }
    if Covers(c, parent, names) {
      forall i | 0 <= i < |names[1..]| - 1 ensures c'.free[i] != NONE {
        assert c.free[i + 1] != NONE;
      }
    }
  }

  /** Names none of which exists are made exactly when everything they need is there beforehand. */
  lemma {:induction false} MissingMade(c: Contents, parent: nat, names: seq<string>)
    requires Canonical(names) && names != [] && parent != NONE && LookupIn(c.listing, parent, names[0]).None?
    ensures MakeDown(c, parent, names).Done? <==> Covers(c, parent, names)
    decreases |names|
  {
    hide Lookup, Added, CanPlace, BlocksTaken, Dots;
    if CanCreate(c, parent, names[0]) {
      var c', n, rest := AfterCreate(c, parent, names[0]), c.free[0], names[1..];
      if rest == [] {
        CoversOne(c, parent, names[0]);
        assert names == [names[0]];
      } else if n != NONE {
        DotsNames(n, parent, rest[0]);
        CoversStep(c, parent, names);
        MissingMade(c', n, rest);
      }
    } else {
      CoversFirst(c, parent, names);
    }
  }

  /** Making missing names takes a block for each, and changes only the directory they are made under. */
  lemma {:induction false} MissingAfter(c: Contents, parent: nat, names: seq<string>)
    requires Sound(c) && Canonical(names) && names != [] && LookupIn(c.listing, parent, names[0]).None?
    requires MakeDown(c, parent, names).Done?
    ensures var c' := MakeDown(c, parent, names).after;
      && parent in c.listing && c'.blocks == c.blocks - |names| - BlocksTaken(c.listing[parent])
      && |c'.free| == |c.free| - |names|
      && parent in c'.listing && c'.listing[parent] == Added(c.listing[parent], Entry(c.free[0], DIRECTORY, names[0]))
      && forall d :: d in c.listing && d != parent ==> d in c'.listing && c'.listing[d] == c.listing[d]
    decreases |names|
  {
    hide Sound, Lookup, Added, CanPlace, BlocksTaken, Dots;
    var c', n, rest := AfterCreate(c, parent, names[0]), c.free[0], names[1..];
    CreateSound(c, parent, names[0]);
    FreeNotListed(c);
    if rest != [] {
      DotsNames(n, parent, rest[0]);
      DotsPlaces(n, parent, c'.blocks);
      MissingAfter(c', n, rest);
    }
  }

  lemma FreeNotListed(c: Contents)
    requires Sound(c) && c.free != []
    ensures c.free[0] !in c.listing
  {
  }

  lemma CoversOne(c: Contents, parent: nat, name: string)
    ensures Covers(c, parent, [name]) <==> CanCreate(c, parent, name)
  {
    hide FirstFree, BlocksTaken;
    assert [name][0] == name;
  }

  lemma CoversFirst(c: Contents, parent: nat, names: seq<string>)
    requires names != []
    ensures Covers(c, parent, names) ==> CanCreate(c, parent, names[0])
  {
    hide FirstFree, BlocksTaken;
    assert Covers(c, parent, names) ==> |names[0]| <= MAX_NAME;
  }

  /**
   * From the contents beforehand: no parent that exists is numbered 255, and the first name that does not exist, if
   * any, and those behind it are covered.
   */
  ghost predicate Feasible(c: Contents, parent: nat, names: seq<string>) {
    && (forall j :: 0 <= j < |names| ==> Walk(Graph(c), parent, names[..j]) != Some(NONE))
    && forall j ::
      0 <= j < |names| && Walk(Graph(c), parent, names[..j]).Some? && Walk(Graph(c), parent, names[..j + 1]).None? ==>
      Covers(c, Walk(Graph(c), parent, names[..j]).value, names[j..])
  }

  lemma WalkFirst(dirs: Dirs, parent: nat, names: seq<string>, j: nat)
    requires 0 < j <= |names|
    ensures Walk(dirs, parent, names[..0]) == Some(parent) && names[0..] == names
    ensures Walk(dirs, parent, names[..j]) ==
      match Find(dirs, parent, names[0]) case None => None case Some(next) => Walk(dirs, next, names[1..][..j - 1])
    ensures names[1..][j - 1..] == names[j..]
  {
    assert names[..j][1..] == names[1..][..j - 1];
  }

  lemma FeasibleStep(c: Contents, parent: nat, names: seq<string>)
    requires names != [] && parent != NONE
    ensures Find(Graph(c), parent, names[0]).None? ==> (Feasible(c, parent, names) <==> Covers(c, parent, names))
    ensures Find(Graph(c), parent, names[0]).Some? ==>
      (Feasible(c, parent, names) <==> Feasible(c, Find(Graph(c), parent, names[0]).value, names[1..]))
  {
    hide Covers, Walk, Find;
    var dirs, rest := Graph(c), names[1..];
    forall j | 0 < j <= |names|
      ensures Walk(dirs, parent, names[..j]) ==
        match Find(dirs, parent, names[0]) case None => None case Some(next) => Walk(dirs, next, rest[..j - 1])
      ensures rest[j - 1..] == names[j..]
    {
      WalkFirst(dirs, parent, names, j);
    }
    WalkFirst(dirs, parent, names, 1);
    if Find(dirs, parent, names[0]).Some? {
      var next := Find(dirs, parent, names[0]).value;
      if Feasible(c, parent, names) {
        forall j | 0 <= j < |rest|
          ensures Walk(dirs, next, rest[..j]) != Some(NONE)
          ensures Walk(dirs, next, rest[..j]).Some? && Walk(dirs, next, rest[..j + 1]).None? ==>
            Covers(c, Walk(dirs, next, rest[..j]).value, rest[j..])
        {
          assert Walk(dirs, parent, names[..j + 1]) == Walk(dirs, next, rest[..j]);
          assert Walk(dirs, parent, names[..j + 2]) == Walk(dirs, next, rest[..j + 1]);
        }
      }
      if Feasible(c, next, rest) {
        forall j | 0 < j < |names|
          ensures Walk(dirs, parent, names[..j]) != Some(NONE)
          ensures Walk(dirs, parent, names[..j]).Some? && Walk(dirs, parent, names[..j + 1]).None? ==>
            Covers(c, Walk(dirs, parent, names[..j]).value, names[j..])
        {
          assert Walk(dirs, parent, names[..j + 1]) == Walk(dirs, next, rest[..j]);
          assert Walk(dirs, next, rest[..j - 1]) != Some(NONE);
        }
        assert rest[..0] == [];
        WalkNone(dirs, next);
      }
    }
  }

  lemma WalkNone(dirs: Dirs, from: nat)
    ensures Walk(dirs, from, []) == Some(from)
  {
  }

  /** The forced dir_make succeeds exactly when it is feasible beforehand. */
  lemma {:induction false} MadeIffFeasible(c: Contents, parent: nat, names: seq<string>)
    requires Canonical(names) && FreesUnnamed(c.listing)
    ensures MakeDown(c, parent, names).Done? <==> Feasible(c, parent, names)
    decreases |names|
  {
    hide Covers, CanCreate, Lookup, Feasible, FreesUnnamed;
    if names == [] {
      NothingFeasible(c, parent);
    } else if parent == NONE {
      NoneInfeasible(c, names);
    } else {
      FeasibleStep(c, parent, names);
      FindIsLookup(c.listing, parent, names[0]);
      if LookupIn(c.listing, parent, names[0]).Some? {
        MadeIffFeasible(c, LookupIn(c.listing, parent, names[0]).value.inode, names[1..]);
      } else {
        MissingMade(c, parent, names);
      }
    }
  }

  lemma NothingFeasible(c: Contents, parent: nat)
    ensures Feasible(c, parent, [])
  {
  }

  lemma NoneInfeasible(c: Contents, names: seq<string>)
    requires names != []
    ensures !Feasible(c, NONE, names)
  {
    assert names[..0] == [] && Walk(Graph(c), NONE, names[..0]) == Some(NONE);
  }

  /**
   * Below a path that leads to the parent: when all is made the graph is a tree, keeps its paths, and the path with the
   * names resolves; a refusal keeps the tree and its paths as well.
   */
  lemma {:induction false} MakeDownKeeps(c: Contents, path: seq<string>, parent: nat, names: seq<string>)
    requires Canonical(names) && Sound(c) && IsTree(Graph(c)) && Walk(Graph(c), ROOT, path) == Some(parent)
    ensures var o := MakeDown(c, parent, names);
      && (!o.Broken? ==> StillTree(c, o.after))
      && (o.Done? ==> Walk(Graph(o.after), ROOT, path + names).Some?)
    decreases |names|
  {
    hide CanPlace, BlocksTaken, AfterCreate, Lookup, Sound, IsTree, Added, Walk;
    if names == [] {
      assert path + names == path;
    } else if parent != NONE {
      var name, rest := names[0], names[1..];
      assert path + [name] + rest == path + names;
      SoundUnnamed(c);
      FindIsLookup(c.listing, parent, name);
      var found := LookupIn(c.listing, parent, name);
      if found.Some? {
        WalkDown(Graph(c), path, parent, name);
        MakeDownKeeps(c, path + [name], found.value.inode, rest);
      } else if CanCreate(c, parent, name) {
        var c', n := AfterCreate(c, parent, name), c.free[0];
        CreateKeeps(c, parent, name);
        WalkDown(Graph(c'), path, parent, name);
        MakeDownKeeps(c', path + [name], n, rest);
        var o := MakeDown(c', n, rest);
        if !o.Broken? { StillTreeTwice(c, c', o.after); }
      }
    }
  }

  lemma WalkDown(dirs: Dirs, path: seq<string>, parent: nat, name: string)
    requires Walk(dirs, ROOT, path) == Some(parent)
    ensures Walk(dirs, ROOT, path + [name]) == Find(dirs, parent, name)
  {
    assert Init(path + [name]) == path;
    WalkLast(dirs, ROOT, path + [name]);
  }

  lemma SoundUnnamed(c: Contents)
    requires Sound(c)
    ensures FreesUnnamed(c.listing)
  {
  }
}
