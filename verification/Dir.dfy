/** Changing directories: dir_change of os/lib/dir.c over the resolver of os/fs/fs_directory.c. */
module Dir {
  import opened Common
  import opened PathModel
  import opened Paths
  import opened Tree
  import opened CreateModel
  import opened FileSystem

  /** A path on which the normaliser stays inside its strings and, met the sentinel or not, loses no name for good. */
  ghost predicate StaysInside(stack: seq<string>, path: string) {
    var start, segs := StartOf(path, stack), Segments(path);
    '\0' !in path && !Overruns(start, segs) && (PopsSafe(start, segs) || SafeFromRoot(start, segs))
  }

  /** The segments behind the first empty one, which the resolver does not look at, make no difference to the text. */
  predicate TextAgrees(stack: seq<string>, path: string) {
    Fold(StartOf(path, stack), Segments(path)) == Fold(StartOf(path, stack), UpToEmpty(Segments(path)))
  }

  ghost predicate GoodPath(stack: seq<string>, path: string) {
    StaysInside(stack, path) && TextAgrees(stack, path)
  }

  /** Paths without an empty inner segment agree. */
  lemma NoInnerEmptyAgrees(stack: seq<string>, path: string)
    requires NoInnerEmpty(Segments(path))
    ensures TextAgrees(stack, path)
  {
    NoInnerEmptyFolds(StartOf(path, stack), Segments(path));
  }

  /** Of a path that resolves, the normalised text leads to the resolved inode if and only if the text agrees. */
  lemma RightIffAgrees(dirs: Dirs, stack: seq<string>, cwd: nat, path: string)
    requires IsTree(dirs) && Leads(dirs, Text(stack), cwd, stack) && StaysInside(stack, path)
    requires PathInode(dirs, path, cwd).Some?
    ensures var end := Fold(StartOf(path, stack), Segments(path));
      && NormalPlace(path, stack) == At(end)
      && (Resolves(dirs, Text(end), PathInode(dirs, path, cwd).value) <==> TextAgrees(stack, path))
      && (TextAgrees(stack, path) ==> Leads(dirs, Text(end), PathInode(dirs, path, cwd).value, end))
  {
    hide Fold, Walk, IsTree;
    var start := StartOf(path, stack);
    var end := Fold(start, Segments(path));
    TrackIsFoldIff(start, Segments(path));
    RightTextIff(dirs, stack, cwd, path, Text(end));
    ResolvedLeads(dirs, stack, cwd, path);
    SegmentsOk(path);
    FoldCanonical(start, Segments(path));
    if Text(end) == Text(Fold(start, UpToEmpty(Segments(path)))) {
      TextInjective(end, Fold(start, UpToEmpty(Segments(path))));
    }
  }

  /**
   * What dir_change is about to take: the inode the path resolves to and, unless the normaliser leaves its strings, the
   * text. That is right if and only if it is the fold of the segments up to the first empty one; on a path on which the
   * normaliser stays inside its strings, if and only if the text agrees.
   */
  method Target(volume: Volume, path: string, cwd: nat, cwdPath: string, ghost stack: seq<string>)
    returns (inode: Option<nat>, text: string, fault: bool, short: bool)
    requires volume.Valid() && IsTree(Graph(volume.State()))
    requires Leads(Graph(volume.State()), cwdPath, cwd, stack) && '\0' !in path
    modifies volume.cache`hand, volume.cache.slots, volume.cache.disk
    ensures volume.Valid() && volume.State() == old(volume.State())
    ensures inode == PathInode(Graph(volume.State()), path, cwd)
      && (fault <==> inode.Some? && NormalPlace(path, stack).Fault?)
    ensures short <==> inode.Some? && !fault && BufferTooShort(stack, path)
    ensures inode.Some? && !fault ==>
      && text == Show(NormalPlace(path, stack))
      && (Resolves(Graph(volume.State()), text, inode.value) <==>
            text == Text(Fold(StartOf(path, stack), UpToEmpty(Segments(path)))))
    ensures inode.Some? && StaysInside(stack, path) ==>
      && !fault && (Resolves(Graph(volume.State()), text, inode.value) <==> TextAgrees(stack, path))
      && (TextAgrees(stack, path) ==>
            Leads(Graph(volume.State()), text, inode.value, Fold(StartOf(path, stack), Segments(path))))
  {
    hide Walk, Fold, Track, IsTree, StaysInside, TextAgrees, BufferTooShort, volume.Valid, volume.Consistent,
      volume.Shown, volume.State, Graph;
    ghost var dirs := Graph(volume.State());
    inode := volume.PathToInode(path, cwd);
    text, fault, short := "", false, false;
    if inode.None? {
      return;
    }
    if StaysInside(stack, path) {
      RightIffAgrees(dirs, stack, cwd, path);
    }
    assert forall o: object :: o in volume.Footprint() ==> allocated(o);
    text, fault, short := NormalOf(path, cwdPath, stack);
    if !fault {
      RightTextIff(dirs, stack, cwd, path, text);
    }
  }

  class WorkingDirectory {
    var cwd: nat
    var cwdPath: string

    constructor ()
      ensures cwd == ROOT && cwdPath == "/"
    {
      cwd, cwdPath := ROOT, "/";
    }

    /**
     * dir_change. A path that does not resolve changes nothing. Otherwise the inode is the resolved one. Its text is
     * right if and only if it is the fold of the segments up to the first empty one; on a path on which the
     * normaliser stays inside its strings, that is if and only if the text agrees. The buffer is declared one
     * character short exactly for a path of plain names from below the root.
     */
    method Change(volume: Volume, path: string, ghost stack: seq<string>) returns (ok: bool, fault: bool, short: bool)
      requires volume.Valid() && this !in volume.Footprint() && IsTree(Graph(volume.State()))
      requires Leads(Graph(volume.State()), cwdPath, cwd, stack) && '\0' !in path
      modifies this, volume.cache`hand, volume.cache.slots, volume.cache.disk
      ensures volume.Valid() && volume.State() == old(volume.State())
      ensures var dirs := Graph(volume.State());
        && (ok <==> PathInode(dirs, path, old(cwd)).Some?)
        && (!ok ==> cwd == old(cwd) && cwdPath == old(cwdPath) && !fault)
        && (ok ==> Some(cwd) == PathInode(dirs, path, old(cwd)))
        && (ok ==> (fault <==> NormalPlace(path, stack).Fault?))
        && (short <==> ok && !fault && BufferTooShort(stack, path))
        && (ok && !fault ==>
              && cwdPath == Show(NormalPlace(path, stack))
              && (Resolves(dirs, cwdPath, cwd) <==>
                  cwdPath == Text(Fold(StartOf(path, stack), UpToEmpty(Segments(path))))))
        && (ok && StaysInside(stack, path) ==>
              && !fault && (Resolves(dirs, cwdPath, cwd) <==> TextAgrees(stack, path))
              && (TextAgrees(stack, path) ==> Leads(dirs, cwdPath, cwd, Fold(StartOf(path, stack), Segments(path)))))
    {
      hide Walk, Fold, Track, IsTree, StaysInside, TextAgrees, BufferTooShort, PathInode, Resolves, NormalPlace,
        UpToEmpty, Segments, Text, volume.Valid, volume.Consistent, volume.Shown, volume.State, Graph;
      var inode, text;
      inode, text, fault, short := Target(volume, path, cwd, cwdPath, stack);
      ok := inode.Some?;
      if ok {
        cwd := inode.value;
        if !fault {
          cwdPath := text;
        }
      }
    }
  }

  lemma GoodPathLeads(dirs: Dirs, stack: seq<string>, cwd: nat, path: string)
    requires IsTree(dirs) && Leads(dirs, Text(stack), cwd, stack)
    requires PathInode(dirs, path, cwd).Some? && GoodPath(stack, path)
    ensures var end := Fold(StartOf(path, stack), Segments(path));
      NormalPlace(path, stack) == At(end) && Leads(dirs, Text(end), PathInode(dirs, path, cwd).value, end)
  {
    RightIffAgrees(dirs, stack, cwd, path);
  }

  /** The inode and the path after a sequence of changes; a path that does not resolve is refused. */
  ghost function AfterChanges(dirs: Dirs, cwd: nat, stack: seq<string>, paths: seq<string>): (nat, seq<string>)
    decreases |paths|
  {
    if paths == [] then (cwd, stack)
    else match PathInode(dirs, paths[0], cwd)
      case None => AfterChanges(dirs, cwd, stack, paths[1..])
      case Some(next) => AfterChanges(dirs, next, Fold(StartOf(paths[0], stack), Segments(paths[0])), paths[1..])
  }

  ghost predicate GoodPaths(dirs: Dirs, cwd: nat, stack: seq<string>, paths: seq<string>)
    decreases |paths|
  {
    paths != [] ==>
      match PathInode(dirs, paths[0], cwd)
      case None => GoodPaths(dirs, cwd, stack, paths[1..])
      case Some(next) =>
        GoodPath(stack, paths[0])
          && GoodPaths(dirs, next, Fold(StartOf(paths[0], stack), Segments(paths[0])), paths[1..])
  }

  /** Over every sequence of good changes in every tree, the path text keeps leading to the inode. */
  lemma {:induction false} ChangesKeepLeading(dirs: Dirs, cwd: nat, stack: seq<string>, paths: seq<string>)
    requires IsTree(dirs) && Leads(dirs, Text(stack), cwd, stack) && GoodPaths(dirs, cwd, stack, paths)
    ensures var (cwd', stack') := AfterChanges(dirs, cwd, stack, paths);
      Leads(dirs, Text(stack'), cwd', stack')
    decreases |paths|
  {
    if paths != [] {
      match PathInode(dirs, paths[0], cwd) {
        case None =>
          ChangesKeepLeading(dirs, cwd, stack, paths[1..]);
        case Some(next) =>
          GoodPathLeads(dirs, stack, cwd, paths[0]);
          ChangesKeepLeading(dirs, next, Fold(StartOf(paths[0], stack), Segments(paths[0])), paths[1..]);
      }
    }
  }

  lemma SegmentsAB()
    ensures Segments("a//b") == ["a", "", "b"] && UpToEmpty(["a", "", "b"]) == ["a"]
    ensures PopsSafe([], ["a", "", "b"]) && !Overruns([], ["a", "", "b"])
  {
    SplitPlain("", "a");
    SplitName("", "a", "");
    SplitName("", "a" + "/" + "", "b");
    assert "a" + "/" + "" + "/" + "b" == "a//b" && "" + "a" == "a";
    var segs := ["a", "", "b"];
    assert Segments("a//b") == segs;
    assert segs[1..] == ["", "b"] && segs[1..][1..] == ["b"] && segs[1..][1..][1..] == [];
    assert UpToEmpty(segs[1..]) == [];
  }

  /** An empty inner segment stops the resolver but not the normaliser: from "/", "a//b" leads to a but reads "/a/b". */
  lemma InnerEmptySeparates(dirs: Dirs, a: nat)
    requires IsTree(dirs) && Find(dirs, ROOT, "a") == Some(a)
    ensures PathInode(dirs, "a//b", ROOT) == Some(a)
    ensures NormalPlace("a//b", []) == At(["a", "b"]) && !Resolves(dirs, Text(["a", "b"]), a)
  {
    hide Split, Fold, UpToEmpty, PopsSafe, Overruns, Text, Joined, IsTree, Resolves, Segments, NormalPlace;
    SegmentsAB();
    FoldAB();
    WalkOne(dirs, ROOT, "a", []);
    WalkNothing(dirs, a);
    assert ["a"] + [] == ["a"];
    RootLeads(dirs);
    RightIffAgrees(dirs, [], ROOT, "a//b");
  }

  /** An empty inner segment does no harm where nothing behind it counts: from "/", "a//." leads to a and reads "/a". */
  lemma InnerEmptyAgrees()
    ensures TextAgrees([], "a//.") && !NoInnerEmpty(Segments("a//."))
  {
    SplitPlain("", "a");
    SplitName("", "a", "");
    SplitName("", "a" + "/" + "", ".");
    assert "a" + "/" + "" + "/" + "." == "a//." && "" + "a" == "a";
    var segs := ["a", "", "."];
    assert Segments("a//.") == segs && segs[1] == "";
    assert segs[1..] == ["", "."] && segs[1..][1..] == ["."] && segs[1..][1..][1..] == [];
    assert Fold([], segs) == Fold(["a"], ["", "."]) == Fold(["a"], ["."]) == Fold(["a"], []);
    assert UpToEmpty(segs) == ["a"] && ["a"][1..] == [];
  }

  lemma FoldAB()
    ensures Fold([], ["a", "", "b"]) == ["a", "b"] && Fold([], ["a"]) == ["a"]
  {
    assert ["a", "", "b"][1..] == ["", "b"] && ["", "b"][1..] == ["b"] && ["b"][1..] == [] && ["a"][1..] == [];
    assert Fold(["a"], ["", "b"]) == Fold(["a"], ["b"]) == Fold(["a", "b"], []);
    assert Fold(["a"], []) == ["a"];
  }

  lemma RootLeads(dirs: Dirs)
    ensures Leads(dirs, Text([]), ROOT, [])
  {
  }
}
