/** The forced dir_make of os/lib/dir.c, which makes a directory and every ancestor that is not there yet. */
module MakeDir {
  import opened Common
  import opened PathModel
  import opened Paths
  import opened Tree
  import opened CreateModel
  import opened FileSystem
  import opened Disk
  import opened InodeCache
  import opened BitmapModel
  import Directory
  import DirectoryTree
  import Dir

  /** No ancestor's path is 255 characters long. */
  ghost predicate PrefixesSafe(stack: seq<string>) {
    forall j :: 0 <= j < |stack| ==> |Joined(stack[..j])| != NONE
  }

  /** Asked to make the root, the code makes a directory named "/" in the working directory. */
  lemma MakingRoot(c: Contents, cwd: nat)
    requires cwd != NONE
    ensures Create(c, "/", cwd) == CreateIn(c, cwd, "/")
  {
    hide CreateIn;
    assert Init("/") == "" && LastIndex("") == -1;
    assert LastDelimiter("/") == NONE;
    assert CutTimes("/", 1) == Empty;
    assert Segments("") == [""];
    assert UpToEmpty([""]) == [];
  }

  function Delimiters(path: string): nat {
    if path == "" then 0 else Delimiters(Init(path)) + if Last(path) == '/' then 1 else 0
  }

  lemma {:induction false} DelimitersAppend(a: string, b: string)
    ensures Delimiters(a + b) == Delimiters(a) + Delimiters(b)
    decreases |b|
  {
    if b == "" {
      assert a + b == a;
    } else {
      assert Init(a + b) == a + Init(b);
      DelimitersAppend(a, Init(b));
    }
  }

  lemma {:induction false} NoDelimiters(s: string)
    requires '/' !in s
    ensures Delimiters(s) == 0
  {
    if s != "" { NoDelimiters(Init(s)); }
  }

  /** A canonical path has one delimiter per name. */
  lemma {:induction false} DelimitersOfText(stack: seq<string>)
    requires Canonical(stack) && stack != []
    ensures Delimiters(Text(stack)) == |stack|
    decreases |stack|
  {
    var prefix := Joined(Init(stack));
    DelimitersAppend(prefix + "/", Last(stack));
    DelimitersAppend(prefix, "/");
    NoDelimiters(Last(stack));
    if |stack| > 1 { DelimitersOfText(Init(stack)); } else { assert prefix == ""; }
    assert Delimiters("/") == 1 by { assert Init("/") == ""; }
  }

  lemma PrefixText(stack: seq<string>, i: nat)
    requires Canonical(stack) && 0 < i < |stack| && PrefixesSafe(stack)
    ensures ParentText(Text(stack), |stack| - i - 1) == Some(Text(stack[..i]))
  {
    hide ParentText, Text, Canonical, Joined;
    assert CutsSafe(stack, |stack| - i - 1);
    ParentOfCanonical(stack, |stack| - i - 1);
  }

  /** fs_path_delimiter_count */
  method DelimiterCount(path: string) returns (n: nat)
    ensures n == Delimiters(path)
  {
    n := 0;
    for i := 0 to |path|
      invariant n == Delimiters(path[..i])
    {
      assert Init(path[..i + 1]) == path[..i];
      if path[i] == '/' {
        n := n + 1;
      }
    }
    assert path[..|path|] == path;
  }

  /** One round of dir_make is one step of making the names down from the root. */
  lemma RoundSteps(c: Contents, stack: seq<string>, i: nat, parent: nat, cwd: nat)
    requires Sound(c) && IsTree(Graph(c)) && Canonical(stack) && PrefixesSafe(stack) && 0 < i <= |stack|
    requires Walk(Graph(c), ROOT, stack[..i - 1]) == Some(parent)
    ensures var made := Create(c, Text(stack[..i]), cwd);
      var o := MakeDown(c, parent, stack[i - 1..]);
      if made.MadeFault? then o.Broken?
      else if made.status == 0 then o == Refused(c) && made.after == c
      else
        && StillTree(c, made.after) && Walk(Graph(made.after), ROOT, stack[..i]).Some?
        && o == MakeDown(made.after, Walk(Graph(made.after), ROOT, stack[..i]).value, stack[i..])
  {
    hide Create, Walk, Text, Joined, Sound, IsTree, CanCreate, AfterCreate, Directory.Lookup, WalksKept;
    var path, name := stack[..i - 1], stack[i - 1];
    assert stack[..i] == path + [name] && Init(stack[..i]) == path && Last(stack[..i]) == name;
    assert stack[i - 1..][0] == name && stack[i - 1..][1..] == stack[i..];
    CreateOnCanonical(c, stack[..i], cwd);
    if parent != NONE {
      SoundUnnamed(c);
      DirectoryTree.FindIsLookup(c.listing, parent, name);
      if LookupIn(c.listing, parent, name).Some? {
        WalkDown(Graph(c), path, parent, name);
        StillSelf(c);
      } else if CanCreate(c, parent, name) {
        CreateKeeps(c, parent, name);
        KeptPath(c, AfterCreate(c, parent, name), path);
        WalkDown(Graph(AfterCreate(c, parent, name)), path, parent, name);
      }
    }
  }

  lemma StillSelf(c: Contents)
    requires Sound(c) && IsTree(Graph(c))
    ensures StillTree(c, c)
  {
  }

  lemma KeptPath(c: Contents, c': Contents, path: seq<string>)
    requires StillTree(c, c') && Walk(Graph(c), ROOT, path).Some?
    ensures Walk(Graph(c'), ROOT, path) == Walk(Graph(c), ROOT, path)
  {
  }

  lemma KeptTwice(c0: Contents, c1: Contents, c2: Contents)
    requires WalksKept(Graph(c0), Graph(c1)) && WalksKept(Graph(c1), Graph(c2))
    ensures WalksKept(Graph(c0), Graph(c2))
  {
    forall stack | Walk(Graph(c0), ROOT, stack).Some?
      ensures Walk(Graph(c2), ROOT, stack) == Walk(Graph(c0), ROOT, stack)
    {
      assert Walk(Graph(c1), ROOT, stack) == Walk(Graph(c0), ROOT, stack);
    }
  }

  lemma PrefixWalks(dirs: Dirs, stack: seq<string>, j: nat)
    requires Walk(dirs, ROOT, stack).Some? && j <= |stack|
    ensures Walk(dirs, ROOT, stack[..j]).Some?
  {
    assert stack == stack[..j] + stack[j..];
    WalkAppend(dirs, ROOT, stack[..j], stack[j..]);
  }

  /** How dir_make ends on a canonical path: the names are made down from the root, or the root is asked for. */
  ghost predicate MadeAll(c: Contents, c': Contents, stack: seq<string>, cwd: nat, ok: bool, fault: bool) {
    if stack == [] then
      && (fault <==> Create(c, "/", cwd) == MadeFault)
      && (ok <==> Create(c, "/", cwd).Made? && Create(c, "/", cwd).status != 0)
      && (!fault ==> Made(if ok then Create(c, "/", cwd).status else 0, c') == Create(c, "/", cwd))
    else
      && (ok <==> Feasible(c, ROOT, stack))
      && (fault <==> MakeDown(c, ROOT, stack).Broken?)
      && (ok <==> MakeDown(c, ROOT, stack).Done?)
      && (!fault ==> c' == MakeDown(c, ROOT, stack).after && StillTree(c, c'))
      && (ok ==> forall j :: 0 <= j <= |stack| ==> Walk(Graph(c'), ROOT, stack[..j]).Some?)
      && WalksKept(Graph(c), Graph(c'))
  }

  /** Before round i: what is made so far leads to the parent, and the rest of the names is still to be made there. */
  ghost predicate Going(start: Contents, c: Contents, stack: seq<string>, i: nat, parent: nat)
    requires 0 < i <= |stack|
  {
    && StillTree(start, c) && Walk(Graph(c), ROOT, stack[..i - 1]) == Some(parent)
    && MakeDown(c, parent, stack[i - 1..]) == MakeDown(start, ROOT, stack)
  }

  /** What one call of fs_directory_create brings about, for the first i names of the path. */
  lemma Round(start: Contents, c: Contents, c': Contents, stack: seq<string>, i: nat, parent: nat, cwd: nat,
              status: nat, fault: bool)
    requires Sound(start) && Canonical(stack) && PrefixesSafe(stack) && 0 < i <= |stack|
      && Going(start, c, stack, i, parent)
    requires fault <==> Create(c, Text(stack[..i]), cwd) == MadeFault
    requires !fault ==> Made(status, c') == Create(c, Text(stack[..i]), cwd)
    requires fault ==> ListingKept(c, c')
    ensures fault || status == 0 ==> MadeAll(start, c', stack, cwd, false, fault)
    ensures !fault && status != 0 && i == |stack| ==> MadeAll(start, c', stack, cwd, true, false)
    ensures !fault && status != 0 && i < |stack| ==>
      Walk(Graph(c'), ROOT, stack[..i]).Some? && Going(start, c', stack, i + 1, Walk(Graph(c'), ROOT, stack[..i]).value)
  {
    hide Create, Walk, Text, Joined, Sound, IsTree, Feasible, WalksKept, ListingKept, Graph;
    RoundSteps(c, stack, i, parent, cwd);
    SoundUnnamed(start);
    MadeIffFeasible(start, ROOT, stack);
    if fault {
      KeptWalks(c, c');
      KeptTwice(start, c, c');
    } else if status != 0 {
      StillTreeTwice(start, c, c');
      if i == |stack| {
        assert stack[..i] == stack && stack[i..] == [];
        forall j | 0 <= j <= |stack| ensures Walk(Graph(c'), ROOT, stack[..j]).Some? {
          PrefixWalks(Graph(c'), stack, j);
        }
      }
    }
  }

  lemma AtStart(start: Contents, stack: seq<string>)
    requires Sound(start) && IsTree(Graph(start)) && stack != []
    ensures Going(start, start, stack, 1, ROOT)
  {
    assert stack[0..] == stack;
  }

  lemma RootDelimiter()
    ensures Delimiters("/") == 1 && Text([]) == "/"
  {
    assert Init("/") == "";
  }

  /**
   * The forced dir_make, from the normalised path on: ancestors in order of depth, then the path itself. It succeeds
   * exactly when that is feasible beforehand; then every prefix of the path exists, the graph is a tree, and every path
   * there was still resolves.
   */
  method MakeAll(volume: Volume, absolutePath: string, cwd: nat, ghost stack: seq<string>)
    returns (ok: bool, fault: bool)
    requires volume.Valid() && IsTree(Graph(volume.State()))
    requires Canonical(stack) && PrefixesSafe(stack) && absolutePath == Text(stack)
    modifies volume.Footprint()
    ensures volume.Consistent() && (!fault ==> volume.Valid())
    ensures MadeAll(old(volume.State()), volume.State(), stack, cwd, ok, fault)
  {
    hide Walk, Create, MakeDown, Text, Joined, Graph, IsTree, Sound, Going, volume.Valid, volume.Consistent,
      volume.Shown, volume.State, PrefixesSafe;
    ghost var start, parent := volume.State(), ROOT;
    volume.StateSound();
    NoNulInText(stack);
    RootDelimiter();
    if stack != [] {
      DelimitersOfText(stack);
      AtStart(start, stack);
      assert stack[..|stack|] == stack;
    }
    var parentDirCount := DelimiterCount(absolutePath);
    var status;
    for i := 1 to parentDirCount
      invariant volume.Valid()
        && if stack == [] then volume.State() == start else Going(start, volume.State(), stack, i, parent)
    {
      PrefixText(stack, i);
      var parentPath;
      parentPath, fault := ParentAt(absolutePath, parentDirCount - i - 1);
      ghost var before := volume.State();
      status, fault := volume.CreateDirectory(parentPath, cwd);
      Round(start, before, volume.State(), stack, i, parent, cwd, status, fault);
      if fault || status == 0 {
        return false, fault;
      }
      parent := Walk(Graph(volume.State()), ROOT, stack[..i]).value;
    }
    ghost var before := volume.State();
    status, fault := volume.CreateDirectory(absolutePath, cwd);
    ok := !fault && status != 0;
    if stack != [] {
      Round(start, before, volume.State(), stack, |stack|, parent, cwd, status, fault);
    }
  }

  /**
   * dir_make with forced set, on a path on which the normaliser stays inside its strings. Its buffer is declared one
   * character short exactly for a path of plain names from below the root.
   */
  method Make(volume: Volume, path: string, cwd: nat, cwdPath: string, ghost stack: seq<string>)
    returns (ok: bool, fault: bool, short: bool)
    requires volume.Valid() && IsTree(Graph(volume.State()))
    requires Canonical(stack) && cwdPath == Text(stack) && Dir.StaysInside(stack, path)
    requires PrefixesSafe(Fold(StartOf(path, stack), Segments(path)))
    modifies volume.Footprint()
    ensures volume.Consistent() && (!fault ==> volume.Valid())
    ensures MadeAll(old(volume.State()), volume.State(), Fold(StartOf(path, stack), Segments(path)), cwd, ok, fault)
    ensures short <==> BufferTooShort(stack, path)
  {
    hide Walk, Fold, Track, MadeAll, IsTree, PrefixesSafe, Joined, BufferTooShort, volume.Valid, volume.Consistent,
      volume.Shown, volume.State, Graph;
    ghost var end := Fold(StartOf(path, stack), Segments(path));
    ghost var start := volume.State();
    TrackIsFoldIff(StartOf(path, stack), Segments(path));
    SegmentsOk(path);
    FoldCanonical(StartOf(path, stack), Segments(path));
    var absolutePath;
    absolutePath, fault, short := NormalOf(path, cwdPath, stack);
    ok, fault := MakeAll(volume, absolutePath, cwd, end);
  }

  // ----- a run that fills the disk ------------------------------------------------------------

  /** Seven directories named a, each in the one before. */
  function Nested(n: nat): seq<string> {
    seq(n, _ => "a")
  }

  lemma {:induction false} NestedText(n: nat)
    ensures Canonical(Nested(n)) && |Joined(Nested(n))| == 2 * n
  {
    if n > 0 {
      assert Init(Nested(n)) == Nested(n - 1);
      NestedText(n - 1);
    }
  }

  lemma NestedSafe(n: nat)
    requires n < 100
    ensures PrefixesSafe(Nested(n)) && Canonical(Nested(n))
  {
    NestedText(n);
    forall j | 0 <= j < n ensures |Joined(Nested(n)[..j])| != NONE {
      assert Nested(n)[..j] == Nested(j);
      NestedText(j);
    }
  }

  /** On a fresh volume of eight blocks seven nested directories can be made. */
  lemma NestedFeasible(c: Contents)
    requires Sound(c) && c.listing == map[ROOT := DirectoryTree.Dots(ROOT, ROOT)] && c.blocks == 7
    requires |c.free| >= 7 && forall k :: 0 <= k < 7 ==> c.free[k] == k + 1
    ensures Feasible(c, ROOT, Nested(7)) && MakeDown(c, ROOT, Nested(7)).Done?
    ensures LookupIn(c.listing, ROOT, "a").None?
  {
    hide Walk, Feasible, MakeDown, Directory.Lookup, Directory.CanPlace, Directory.BlocksTaken, DirectoryTree.Dots;
    NestedText(7);
    DotsPlaces(ROOT, ROOT, 7);
    DotsNames(ROOT, ROOT, "a");
    MissingMade(c, ROOT, Nested(7));
    SoundUnnamed(c);
    MadeIffFeasible(c, ROOT, Nested(7));
  }

  /** They take every block, so nothing more can be made, although the root has a place. */
  lemma NestedFills(c: Contents)
    requires Sound(c) && c.listing == map[ROOT := DirectoryTree.Dots(ROOT, ROOT)] && c.blocks == 7
    requires |c.free| >= 7 && MakeDown(c, ROOT, Nested(7)).Done? && LookupIn(c.listing, ROOT, "a").None?
    ensures var c' := MakeDown(c, ROOT, Nested(7)).after;
      && Create(c', "/z", ROOT) == MadeFault && c'.blocks == 0 && |c'.free| == |c.free| - 7
      && ROOT in c'.listing && Directory.CanPlace(c'.listing[ROOT], 0)
  {
    hide Walk, Create, CreateIn, CanCreate, MakeDown, Sound, Directory.Lookup;
    NestedText(7);
    assert Nested(7)[0] == "a";
    MissingAfter(c, ROOT, Nested(7));
    var c' := MakeDown(c, ROOT, Nested(7)).after;
    RootHasPlace(c.free[0]);
    CreateOnCanonical(c', ["z"], ROOT);
    assert Init(["z"]) == [] && Last(["z"]) == "z" && Text(["z"]) == "" + "/" + "z" == "/z";
    WalkNone(Graph(c'), ROOT);
    NoBlockNoDirectory(c', ROOT, "z");
  }

  lemma RootHasPlace(n: nat)
    ensures Directory.BlocksTaken(DirectoryTree.Dots(ROOT, ROOT)) == 0
    ensures var entries := Directory.Added(DirectoryTree.Dots(ROOT, ROOT),
      Directory.Entry(n, DirectoryTree.DIRECTORY, "a"));
      Directory.CanPlace(entries, 0) && Directory.Lookup(entries, "z").None?
  {
    var dots := DirectoryTree.Dots(ROOT, ROOT);
    var entry := Directory.Entry(n, DirectoryTree.DIRECTORY, "a");
    DotsPlaces(ROOT, ROOT, 0);
    DotsNames(ROOT, ROOT, "a");
    DotsNames(ROOT, ROOT, "z");
    DirectoryTree.DotsAdded(ROOT, ROOT);
    DirectoryTree.AddedLookup(dots, entry, "z");
    var entries := Directory.Added(dots, entry);
    assert entries == dots + [entry];
    assert forall k :: 0 <= k < 3 ==> entries[k].kind == DirectoryTree.DIRECTORY;
    assert Directory.FirstFree(entries, 0) == 3;
  }

  lemma NoBlockNoDirectory(c: Contents, parent: nat, name: string)
    requires c.blocks == 0 && LookupIn(c.listing, parent, name).None?
    ensures CreateIn(c, parent, name) == MadeFault
  {
  }

  /**
   * The run: a volume of eight blocks and 64 inodes is made, and on it /a/a/a/a/a/a/a. Then no block is left, and
   * making /z is the fault, although the graph is a tree, the root has a place and inodes are free.
   */
  method FillsDisk(dataDisk: Drive<Block>, numberDisk: Drive<Block>, drive: Drive<seq<Directory.Entry>>,
                   table: Drive<Sector>, layout: Layout) returns (volume: Volume)
    requires dataDisk != numberDisk && (drive as object) != (dataDisk as object)
      && (drive as object) != (numberDisk as object)
    requires forall b: nat :: b < 8 ==> b in drive.sectors
    requires forall b :: b in drive.sectors ==> |drive.sectors[b]| == Directory.PER_BLOCK
    requires TableValid(table.sectors, layout) && 64 <= layout.count
    requires (table as object) !in {dataDisk as object, numberDisk as object, drive as object}
    modifies Disks(dataDisk, numberDisk, drive, table)
    ensures volume.Valid() && IsTree(Graph(volume.State())) && Walk(Graph(volume.State()), ROOT, Nested(7)).Some?
    ensures volume.State().blocks == 0 && |volume.State().free| == 56
    ensures ROOT in volume.State().listing && Directory.CanPlace(volume.State().listing[ROOT], 0)
    ensures Create(volume.State(), "/z", ROOT) == MadeFault
  {
    hide Walk, Create, MakeDown, Feasible, DirectoryTree.Dots, Sound, IsTree, Graph, Text, Directory.CanPlace,
      WalksKept, PrefixesSafe, Canonical, volume.Valid, volume.Consistent, volume.Shown, volume.State;
    volume := NewVolume(dataDisk, numberDisk, drive, table, layout, 8, 64);
    ghost var start := volume.State();
    volume.StateSound();
    FreshRootIsTree(start);
    NestedSafe(7);
    NestedFeasible(start);
    NestedFills(start);
    var made, fault := MakeAll(volume, Text(Nested(7)), ROOT, Nested(7));
    assert volume.State() == MakeDown(start, ROOT, Nested(7)).after;
    assert Nested(7)[..7] == Nested(7);
  }

  lemma FreshRootIsTree(c: Contents)
    requires c.listing == map[ROOT := DirectoryTree.Dots(ROOT, ROOT)]
    ensures IsTree(Graph(c))
  {
    DirectoryTree.DotsAdded(ROOT, ROOT);
    RootIsTree();
    assert Graph(c) == map[ROOT := map["." := ROOT, ".." := ROOT]];
  }
}
