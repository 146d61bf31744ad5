/** The directory tree as a value: each directory inode's entries by name, and what resolving a path means. */
module Tree {
  import opened Common
  import opened PathModel

  type Dirs = map<nat, map<string, nat>>

  const ROOT: nat := 0

  /** fs_directory_entry_find; an inode that is no directory has no entries. */
  function Find(dirs: Dirs, dir: nat, name: string): Option<nat> {
    if dir in dirs && name in dirs[dir] then Some(dirs[dir][name]) else None
  }

  function Walk(dirs: Dirs, from: nat, segs: seq<string>): Option<nat>
    decreases |segs|
  {
    if segs == [] then Some(from)
    else
      var next := Find(dirs, from, segs[0]);
      if next.None? then None else Walk(dirs, next.value, segs[1..])
  }

  /** fs_path_to_inode stops at the first empty segment. */
  function UpToEmpty(segs: seq<string>): seq<string> {
    if segs == [] || segs[0] == "" then [] else [segs[0]] + UpToEmpty(segs[1..])
  }

  function PathInode(dirs: Dirs, path: string, cwd: nat): Option<nat> {
    Walk(dirs, if path != "" && path[0] == '/' then ROOT else cwd, UpToEmpty(Segments(path)))
  }

  // ----- trees --------------------------------------------------------------------------------

  ghost predicate IsChild(dirs: Dirs, d: nat, name: string, c: nat) {
    Plain(name) && Find(dirs, d, name) == Some(c)
  }

  ghost predicate HasDots(dirs: Dirs, d: nat) {
    && Find(dirs, d, ".") == Some(d)
    && Find(dirs, d, "..").Some?
    && (d == ROOT ==> Find(dirs, d, "..") == Some(ROOT))
  }

  /** A path of plain names leads from the root to the directory. */
  ghost predicate Reached(dirs: Dirs, d: nat) {
    exists stack :: Canonical(stack) && Walk(dirs, ROOT, stack) == Some(d)
  }

  /**
   * A tree with unique names: every directory is reached from the root, "." is the directory itself, ".." its parent,
   * and nothing has two parents or names.
   */
  ghost predicate IsTree(dirs: Dirs) {
    && ROOT in dirs
    && (forall d :: d in dirs ==> Reached(dirs, d))
    && (forall d :: d in dirs ==> HasDots(dirs, d))
    && (forall d, n :: d in dirs && n in dirs[d] ==> n == "." || n == ".." || Plain(n))
    && (forall d: nat, n: string, c: nat :: IsChild(dirs, d, n, c) ==>
          c != ROOT && (c in dirs ==> Find(dirs, c, "..") == Some(d)))
    && (forall d: nat, n: string, e: nat, m: string, c: nat :: IsChild(dirs, d, n, c) && IsChild(dirs, e, m, c) ==>
          d == e && n == m)
  }

  /** The root directory fs_directory_create_root leaves is a tree. */
  lemma RootIsTree()
    ensures IsTree(map[ROOT := map["." := ROOT, ".." := ROOT]])
  {
    var dirs: Dirs := map[ROOT := map["." := ROOT, ".." := ROOT]];
    assert Walk(dirs, ROOT, []) == Some(ROOT);
    assert Reached(dirs, ROOT);
  }

  lemma {:induction false} WalkAppend(dirs: Dirs, from: nat, a: seq<string>, b: seq<string>)
    ensures Walk(dirs, from, a + b) ==
      match Walk(dirs, from, a) case None => None case Some(mid) => Walk(dirs, mid, b)
    decreases |a|
  {
    if a == [] {
      assert a + b == b;
    } else {
      assert (a + b)[1..] == a[1..] + b;
      var next := Find(dirs, from, a[0]);
      if next.Some? { WalkAppend(dirs, next.value, a[1..], b); }
    }
  }

  lemma WalkLast(dirs: Dirs, from: nat, stack: seq<string>)
    requires stack != []
    ensures Walk(dirs, from, stack) ==
      match Walk(dirs, from, Init(stack)) case None => None case Some(mid) => Find(dirs, mid, Last(stack))
  {
    assert stack == Init(stack) + [Last(stack)];
    WalkAppend(dirs, from, Init(stack), [Last(stack)]);
    forall mid: nat ensures Walk(dirs, mid, [Last(stack)]) == Find(dirs, mid, Last(stack)) {
      var next := Find(dirs, mid, Last(stack));
      assert [Last(stack)][1..] == [];
      assert next.Some? ==> Walk(dirs, next.value, []) == next;
    }
  }

  /** One segment: looking it up from the end of a canonical stack lands at the end of the pushed stack. */
  lemma StepCommutes(dirs: Dirs, stack: seq<string>, cur: nat, seg: string)
    requires IsTree(dirs) && Canonical(stack) && Walk(dirs, ROOT, stack) == Some(cur)
    requires Find(dirs, cur, seg).Some? && seg != ""
    ensures Walk(dirs, ROOT, Push(stack, seg)) == Find(dirs, cur, seg)
  {
    assert HasDots(dirs, cur);
    if seg == ".." {
      if stack != [] {
        WalkLast(dirs, ROOT, stack);
        var d := Walk(dirs, ROOT, Init(stack)).value;
        assert IsChild(dirs, d, Last(stack), cur);
      }
    } else if seg != "." {
      assert Init(stack + [seg]) == stack && Last(stack + [seg]) == seg;
      WalkLast(dirs, ROOT, stack + [seg]);
    }
  }

  /** Walking segments from the inode and folding them onto the path lead to the same place, in every tree. */
  lemma {:induction false} WalkCommutes(dirs: Dirs, stack: seq<string>, cur: nat, segs: seq<string>)
    requires IsTree(dirs) && Canonical(stack) && Walk(dirs, ROOT, stack) == Some(cur)
    requires forall i :: 0 <= i < |segs| ==> segs[i] != "" && SegmentOk(segs[i])
    requires Walk(dirs, cur, segs).Some?
    ensures Canonical(Fold(stack, segs))
    ensures Walk(dirs, ROOT, Fold(stack, segs)) == Walk(dirs, cur, segs)
    decreases |segs|
  {
    if segs != [] {
      StepCommutes(dirs, stack, cur, segs[0]);
      WalkCommutes(dirs, Push(stack, segs[0]), Find(dirs, cur, segs[0]).value, segs[1..]);
    }
  }

  /** In a tree an inode has one canonical path. */
  lemma {:induction false} OnePath(dirs: Dirs, a: seq<string>, b: seq<string>, c: nat)
    requires IsTree(dirs) && Canonical(a) && Canonical(b)
    requires Walk(dirs, ROOT, a) == Some(c) && Walk(dirs, ROOT, b) == Some(c)
    ensures a == b
    decreases |a| + |b|
  {
    if a != [] { LastIsChild(dirs, a, c); }
    if b != [] { LastIsChild(dirs, b, c); }
    if a != [] && b != [] {
      var d, e := Walk(dirs, ROOT, Init(a)).value, Walk(dirs, ROOT, Init(b)).value;
      assert d == e && Last(a) == Last(b);
      OnePath(dirs, Init(a), Init(b), d);
      assert a == Init(a) + [Last(a)] && b == Init(b) + [Last(b)];
    }
  }

  lemma LastIsChild(dirs: Dirs, stack: seq<string>, c: nat)
    requires IsTree(dirs) && Canonical(stack) && stack != [] && Walk(dirs, ROOT, stack) == Some(c)
    ensures Walk(dirs, ROOT, Init(stack)).Some? && Canonical(Init(stack))
    ensures IsChild(dirs, Walk(dirs, ROOT, Init(stack)).value, Last(stack), c) && c != ROOT
  {
    WalkLast(dirs, ROOT, stack);
    assert Plain(Last(stack));
    assert IsChild(dirs, Walk(dirs, ROOT, Init(stack)).value, Last(stack), c);
  }

  // ----- the working directory ----------------------------------------------------------------

  /** The text is the canonical path of the inode. */
  ghost predicate Leads(dirs: Dirs, text: string, inode: nat, stack: seq<string>) {
    Canonical(stack) && text == Text(stack) && Walk(dirs, ROOT, stack) == Some(inode)
  }

  ghost predicate Resolves(dirs: Dirs, text: string, inode: nat) {
    exists stack :: Leads(dirs, text, inode, stack)
  }

  /** So every directory of a tree has exactly one canonical path. */
  lemma ExactlyOnePath(dirs: Dirs, d: nat)
    requires IsTree(dirs) && d in dirs
    ensures exists stack ::
      Leads(dirs, Text(stack), d, stack) && forall text :: Resolves(dirs, text, d) ==> text == Text(stack)
  {
    hide IsTree;
    assert Reached(dirs, d) by { TreeReaches(dirs, d); }
    var stack :| Canonical(stack) && Walk(dirs, ROOT, stack) == Some(d);
    assert Leads(dirs, Text(stack), d, stack);
    forall text | Resolves(dirs, text, d) ensures text == Text(stack) {
      var other :| Leads(dirs, text, d, other);
      OnePath(dirs, stack, other, d);
    }
  }

  lemma TreeReaches(dirs: Dirs, d: nat)
    requires IsTree(dirs) && d in dirs
    ensures Reached(dirs, d)
  {
  }

  lemma {:induction false} UpToEmptyOk(segs: seq<string>)
    requires forall i :: 0 <= i < |segs| ==> SegmentOk(segs[i])
    ensures forall i :: 0 <= i < |UpToEmpty(segs)| ==> UpToEmpty(segs)[i] != "" && SegmentOk(UpToEmpty(segs)[i])
    decreases |segs|
  {
    if segs != [] && segs[0] != "" { UpToEmptyOk(segs[1..]); }
  }

  lemma SegmentsOk(path: string)
    requires '\0' !in path
    ensures forall i :: 0 <= i < |Segments(path)| ==> SegmentOk(Segments(path)[i])
  {
    if path != "" && path[0] == '/' { SplitSegments("", path[1..]); } else { SplitSegments("", path); }
  }

  /** The inode a path resolves to has the folded path as its canonical path. */
  lemma ResolvedLeads(dirs: Dirs, stack: seq<string>, cwd: nat, path: string)
    requires IsTree(dirs) && Leads(dirs, Text(stack), cwd, stack) && '\0' !in path
    requires PathInode(dirs, path, cwd).Some?
    ensures var end := Fold(StartOf(path, stack), UpToEmpty(Segments(path)));
      Leads(dirs, Text(end), PathInode(dirs, path, cwd).value, end)
  {
    SegmentsOk(path);
    UpToEmptyOk(Segments(path));
    var start := StartOf(path, stack);
    var from := if path != "" && path[0] == '/' then ROOT else cwd;
    assert Walk(dirs, ROOT, start) == Some(from);
    WalkCommutes(dirs, start, from, UpToEmpty(Segments(path)));
  }

  /**
   * After a change to the inode a path resolves to, a new path text is right if and only if it is the fold of the
   * path's segments up to the first empty one, which is where the resolver stops.
   */
  lemma RightTextIff(dirs: Dirs, stack: seq<string>, cwd: nat, path: string, text: string)
    requires IsTree(dirs) && Leads(dirs, Text(stack), cwd, stack) && '\0' !in path
    requires PathInode(dirs, path, cwd).Some?
    ensures Resolves(dirs, text, PathInode(dirs, path, cwd).value) <==>
      text == Text(Fold(StartOf(path, stack), UpToEmpty(Segments(path))))
  {
    ResolvedLeads(dirs, stack, cwd, path);
    var end, inode := Fold(StartOf(path, stack), UpToEmpty(Segments(path))), PathInode(dirs, path, cwd).value;
    if text == Text(end) {
      assert Leads(dirs, text, inode, end);
    }
    if Resolves(dirs, text, inode) {
      var s :| Leads(dirs, text, inode, s);
      OnePath(dirs, s, end, inode);
    }
  }

  /** No empty segment but perhaps the last, which a closing delimiter leaves. */
  predicate NoInnerEmpty(segs: seq<string>) {
    forall i :: 0 <= i < |segs| - 1 ==> segs[i] != ""
  }

  lemma {:induction false} NoInnerEmptyFolds(stack: seq<string>, segs: seq<string>)
    requires NoInnerEmpty(segs)
    ensures Fold(stack, UpToEmpty(segs)) == Fold(stack, segs)
    decreases |segs|
  {
    if segs != [] {
      if segs[0] == "" {
        assert |segs| == 1 && segs[1..] == [];
      } else {
        assert UpToEmpty(segs)[1..] == UpToEmpty(segs[1..]);
        NoInnerEmptyFolds(Push(stack, segs[0]), segs[1..]);
      }
    }
  }

  // ----- making directories -------------------------------------------------------------------

  /** A new directory with "." and "..", entered in its parent. */
  function MakeIn(dirs: Dirs, parent: nat, name: string, made: nat): Dirs
    requires parent in dirs
  {
    var entries: map<string, nat> := dirs[parent][name := made];
    dirs[parent := entries][made := map["." := made, ".." := parent]]
  }

  /** The number is the inode of nothing yet. */
  ghost predicate Unused(dirs: Dirs, n: nat) {
    n != ROOT && n !in dirs && forall d, name :: d in dirs && name in dirs[d] ==> dirs[d][name] != n
  }

  ghost predicate CanMake(dirs: Dirs, parent: nat, name: string, made: nat) {
    IsTree(dirs) && parent in dirs && Plain(name) && name !in dirs[parent] && Unused(dirs, made)
  }

  lemma MakeChildren(dirs: Dirs, parent: nat, name: string, made: nat, d: nat, n: string, c: nat)
    requires CanMake(dirs, parent, name, made)
    ensures IsChild(MakeIn(dirs, parent, name, made), d, n, c) <==>
      IsChild(dirs, d, n, c) || (d == parent && n == name && c == made)
  {
  }

  lemma {:induction false} MakeKeepsWalk(dirs: Dirs, parent: nat, name: string, made: nat, from: nat, segs: seq<string>)
    requires CanMake(dirs, parent, name, made) && Walk(dirs, from, segs).Some?
    ensures Walk(MakeIn(dirs, parent, name, made), from, segs) == Walk(dirs, from, segs)
    decreases |segs|
  {
    if segs != [] {
      assert Find(MakeIn(dirs, parent, name, made), from, segs[0]) == Find(dirs, from, segs[0]);
      MakeKeepsWalk(dirs, parent, name, made, Find(dirs, from, segs[0]).value, segs[1..]);
    }
  }

  /** The new directory is reached through its parent, the others as before. */
  lemma MadeReached(dirs: Dirs, parent: nat, name: string, made: nat, d: nat)
    requires CanMake(dirs, parent, name, made) && d in MakeIn(dirs, parent, name, made)
    ensures Reached(MakeIn(dirs, parent, name, made), d)
  {
    hide Walk;
    var dirs', old' := MakeIn(dirs, parent, name, made), if d == made then parent else d;
    assert Reached(dirs, old');
    var stack :| Canonical(stack) && Walk(dirs, ROOT, stack) == Some(old');
    MakeKeepsWalk(dirs, parent, name, made, ROOT, stack);
    if d == made {
      var longer := stack + [name];
      assert Init(longer) == stack && Last(longer) == name && Canonical(longer);
      WalkLast(dirs', ROOT, longer);
    }
  }

  /** Making a directory keeps the tree a tree, finds it by its name, and leaves every other lookup as it was. */
  lemma MakeKeepsTree(dirs: Dirs, parent: nat, name: string, made: nat)
    requires CanMake(dirs, parent, name, made)
    ensures IsTree(MakeIn(dirs, parent, name, made))
    ensures Find(MakeIn(dirs, parent, name, made), parent, name) == Some(made)
    ensures forall d: nat, n: string :: d != made && !(d == parent && n == name) ==>
      Find(MakeIn(dirs, parent, name, made), d, n) == Find(dirs, d, n)
  {
    hide Reached, Walk;
    var dirs' := MakeIn(dirs, parent, name, made);
    forall d | d in dirs' ensures HasDots(dirs', d) && Reached(dirs', d) {
      if d != made { assert HasDots(dirs, d); }
      MadeReached(dirs, parent, name, made, d);
    }
    forall d: nat, n: string, c: nat | IsChild(dirs', d, n, c)
      ensures c != ROOT && (c in dirs' ==> Find(dirs', c, "..") == Some(d))
    {
      MakeChildren(dirs, parent, name, made, d, n, c);
    }
    forall d: nat, n: string, e: nat, m: string, c: nat | IsChild(dirs', d, n, c) && IsChild(dirs', e, m, c)
      ensures d == e && n == m
    {
      MakeChildren(dirs, parent, name, made, d, n, c);
      MakeChildren(dirs, parent, name, made, e, m, c);
    }
  }

  /** What resolved before still resolves to the same inode. */
  ghost predicate WalksKept(dirs: Dirs, dirs': Dirs) {
    forall stack :: Walk(dirs, ROOT, stack).Some? ==> Walk(dirs', ROOT, stack) == Walk(dirs, ROOT, stack)
  }

  lemma MakeKeepsWalks(dirs: Dirs, parent: nat, name: string, made: nat)
    requires CanMake(dirs, parent, name, made)
    ensures WalksKept(dirs, MakeIn(dirs, parent, name, made))
  {
    forall stack | Walk(dirs, ROOT, stack).Some?
      ensures Walk(MakeIn(dirs, parent, name, made), ROOT, stack) == Walk(dirs, ROOT, stack)
    {
      MakeKeepsWalk(dirs, parent, name, made, ROOT, stack);
    }
  }
}
