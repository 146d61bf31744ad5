/**
 * Paths as values. A path splits at '/' into segments; a canonical path is a stack of plain names.
 * Fold is what normalising means; Track is what fs_path_normalize does, step by step, on every input.
 */
module PathModel {
  import opened Common

  /** FS_DIRECTORY_FAILURE, which fs_path_find_last_delimiter also uses for "no delimiter". */
  const NONE: nat := 255

  /** The segments of cur + s, with cur already known to hold no delimiter. */
  function Split(cur: string, s: string): seq<string>
    decreases |s|
  {
    if s == "" then [cur]
    else if s[0] == '/' then [cur] + Split("", s[1..])
    else Split(cur + [s[0]], s[1..])
  }

  predicate Plain(name: string) {
    name != "" && name != "." && name != ".." && '/' !in name && '\0' !in name
  }

  predicate Canonical(stack: seq<string>) {
    forall i :: 0 <= i < |stack| ==> Plain(stack[i])
  }

  function Init<T>(s: seq<T>): seq<T>
    requires s != []
  {
    s[..|s| - 1]
  }

  function Last<T>(s: seq<T>): T
    requires s != []
  {
    s[|s| - 1]
  }

  function Joined(stack: seq<string>): string {
    if stack == [] then "" else Joined(Init(stack)) + "/" + Last(stack)
  }

  /** The text of a canonical path. */
  function Text(stack: seq<string>): (t: string)
    ensures t != ""
  {
    if stack == [] then "/" else Joined(stack)
  }

  // ----- what normalising means ---------------------------------------------------------------

  function Push(stack: seq<string>, seg: string): seq<string> {
    if seg == ".." then (if stack == [] then [] else Init(stack))
    else if seg == "" || seg == "." then stack
    else stack + [seg]
  }

  function Fold(stack: seq<string>, segs: seq<string>): seq<string>
    decreases |segs|
  {
    if segs == [] then stack else Fold(Push(stack, segs[0]), segs[1..])
  }

  /** The stack a path starts from, and the segments it applies. */
  function StartOf(path: string, stack: seq<string>): seq<string> {
    if path != "" && path[0] == '/' then [] else stack
  }

  function Segments(path: string): seq<string> {
    if path != "" && path[0] == '/' then Split("", path[1..]) else Split("", path)
  }

  // ----- what fs_path_normalize does ----------------------------------------------------------

  /**
   * At: the buffer holds the text of a stack. Void: it holds the empty string, because the last delimiter was at
   * index 255 and passed for none. Fault: the code read past an end of a string.
   */
  datatype Place = At(stack: seq<string>) | Void | Fault

  function Show(place: Place): string
    requires !place.Fault?
  {
    match place case At(stack) => Text(stack) case Void => ""
  }

  function StepPlace(place: Place, seg: string, last: bool): Place {
    match place
    case Fault => Fault
    case Void => if seg == ".." then Fault else if seg == "" || seg == "." then Void else At([seg])
    case At(stack) =>
      if seg == ".." then
        if stack == [] then (if last then Fault else At([]))
        else if |Joined(Init(stack))| == NONE then Void
        else At(Init(stack))
      else if seg == "" || seg == "." then place
      else At(stack + [seg])
  }

  function Track(place: Place, segs: seq<string>): Place
    decreases |segs|
  {
    if segs == [] then place else Track(StepPlace(place, segs[0], |segs| == 1), segs[1..])
  }

  /** No ".." takes the path up to a text of exactly 255 characters. */
  predicate PopsSafe(stack: seq<string>, segs: seq<string>)
    decreases |segs|
  {
    segs != [] ==>
      && (segs[0] == ".." && stack != [] ==> |Joined(Init(stack))| != NONE)
      && PopsSafe(Push(stack, segs[0]), segs[1..])
  }

  /** The last segment is a ".." met at the root. */
  predicate EndsAboveRoot(stack: seq<string>, segs: seq<string>) {
    segs != [] && Last(segs) == ".." && Fold(stack, Init(segs)) == []
  }

  /**
   * Barring a last delimiter at index 255, the code computes the fold, except that it runs past the end of the path
   * exactly when the path ends with a ".." met at the root.
   */
  lemma {:induction false} TrackIsFold(stack: seq<string>, segs: seq<string>)
    requires PopsSafe(stack, segs)
    ensures Track(At(stack), segs) == if EndsAboveRoot(stack, segs) then Fault else At(Fold(stack, segs))
    decreases |segs|
  {
    if segs != [] {
      var next := Push(stack, segs[0]);
      if |segs| == 1 {
        assert Init(segs) == [];
        TrackFault(segs[1..]);
      } else {
        assert Init(segs)[1..] == Init(segs[1..]) && Last(segs) == Last(segs[1..]);
        TrackIsFold(next, segs[1..]);
      }
    }
  }

  lemma {:induction false} TrackFault(segs: seq<string>)
    ensures Track(Fault, segs) == Fault
    decreases |segs|
  {
    if segs != [] { TrackFault(segs[1..]); }
  }

  // ----- where the code is the fold, exactly ---------------------------------------------------

  /** What is left behind the first ".." that takes the path up to a text of 255 characters. */
  function AfterLoss(stack: seq<string>, segs: seq<string>): (rest: seq<string>)
    requires !PopsSafe(stack, segs)
    ensures |rest| < |segs|
    decreases |segs|
  {
    if segs[0] == ".." && stack != [] && |Joined(Init(stack))| == NONE then segs[1..]
    else AfterLoss(Push(stack, segs[0]), segs[1..])
  }

  /** The segments from the first that is a name or "..". */
  function FromName(segs: seq<string>): (rest: seq<string>)
    ensures |rest| <= |segs|
  {
    if segs != [] && (segs[0] == "" || segs[0] == ".") then FromName(segs[1..]) else segs
  }

  /**
   * The path ends with a ".." at the root, or takes a ".." right after one up to 255 characters. A name there starts
   * over from the root.
   */
  predicate Overruns(stack: seq<string>, segs: seq<string>)
    decreases |segs|
  {
    if PopsSafe(stack, segs) then EndsAboveRoot(stack, segs)
    else
      var rest := FromName(AfterLoss(stack, segs));
      rest != [] && (rest[0] == ".." || Overruns([], rest))
  }

  /** The segments come by the root, and from there on no ".." leads up to 255 characters. */
  ghost predicate SafeFromRoot(stack: seq<string>, segs: seq<string>) {
    exists z :: 0 <= z <= |segs| && Fold(stack, segs[..z]) == [] && PopsSafe([], segs[z..])
  }

  lemma {:induction false} TrackAfterLoss(stack: seq<string>, segs: seq<string>)
    requires !PopsSafe(stack, segs)
    ensures Track(At(stack), segs) == Track(Void, AfterLoss(stack, segs))
    decreases |segs|
  {
    if !(segs[0] == ".." && stack != [] && |Joined(Init(stack))| == NONE) {
      TrackAfterLoss(Push(stack, segs[0]), segs[1..]);
    }
  }

  lemma {:induction false} TrackFromName(segs: seq<string>)
    ensures var rest := FromName(segs);
      Track(Void, segs) == if rest == [] then Void else if rest[0] == ".." then Fault else Track(At([]), rest)
    decreases |segs|
  {
    if segs != [] && (segs[0] == "" || segs[0] == ".") {
      TrackFromName(segs[1..]);
    } else if segs != [] {
      TrackFault(segs[1..]);
      assert [] + [segs[0]] == [segs[0]];
    }
  }

  /** The code reads past an end of a string if and only if the segments overrun. */
  lemma {:induction false} FaultIffOverruns(stack: seq<string>, segs: seq<string>)
    ensures Track(At(stack), segs) == Fault <==> Overruns(stack, segs)
    decreases |segs|
  {
    if PopsSafe(stack, segs) {
      TrackIsFold(stack, segs);
    } else {
      TrackAfterLoss(stack, segs);
      TrackFromName(AfterLoss(stack, segs));
      FaultIffOverruns([], FromName(AfterLoss(stack, segs)));
    }
  }

  /** The place keeps the last names of the stack, and has lost those in front. */
  predicate Keeps(place: Place, lost: seq<string>, stack: seq<string>) {
    match place
    case At(kept) => stack == lost + kept
    case Void => stack == lost && lost != []
    case Fault => true
  }

  lemma StepKeeps(place: Place, lost: seq<string>, stack: seq<string>, seg: string, last: bool)
    returns (lost': seq<string>)
    requires Keeps(place, lost, stack)
    ensures Keeps(StepPlace(place, seg, last), lost', Push(stack, seg))
    ensures !StepPlace(place, seg, last).Fault? ==>
      && (lost == [] ==> (lost' != [] <==> seg == ".." && stack != [] && |Joined(Init(stack))| == NONE))
      && (lost != [] && lost' == [] ==> Push(stack, seg) == [])
  {
    lost' := lost;
    if place.At? { assert lost == [] ==> stack == place.stack; }
    if place.At? && seg != ".." && seg != "" && seg != "." {
      assert stack + [seg] == lost + (place.stack + [seg]);
    }
    if place.At? && seg == ".." {
      if place.stack == [] {
        if lost != [] { lost' := Init(lost); }
      } else {
        assert Init(stack) == lost + Init(place.stack);
        if |Joined(Init(place.stack))| == NONE { lost' := Init(stack); }
      }
    }
  }

  lemma SafeFromRootStep(stack: seq<string>, segs: seq<string>)
    requires segs != []
    ensures SafeFromRoot(stack, segs) <==>
      (stack == [] && PopsSafe([], segs)) || SafeFromRoot(Push(stack, segs[0]), segs[1..])
  {
    var next := Push(stack, segs[0]);
    if stack == [] && PopsSafe([], segs) {
      assert segs[..0] == [] && segs[0..] == segs;
    }
    if SafeFromRoot(next, segs[1..]) {
      var z :| 0 <= z <= |segs[1..]| && Fold(next, segs[1..][..z]) == [] && PopsSafe([], segs[1..][z..]);
      assert segs[..z + 1][1..] == segs[1..][..z] && segs[z + 1..] == segs[1..][z..];
    }
    if SafeFromRoot(stack, segs) {
      var z :| 0 <= z <= |segs| && Fold(stack, segs[..z]) == [] && PopsSafe([], segs[z..]);
      if z == 0 {
        assert segs[0..] == segs;
      } else {
        assert segs[..z][1..] == segs[1..][..z - 1] && segs[z..] == segs[1..][z - 1..];
      }
    }
  }

  /** Unless it faults, the code holds the last names of the fold, and all of them just when none was lost for good. */
  lemma {:induction false} TrackKeeps(place: Place, lost: seq<string>, stack: seq<string>, segs: seq<string>)
    returns (lost': seq<string>)
    requires Keeps(place, lost, stack)
    ensures Keeps(Track(place, segs), lost', Fold(stack, segs))
    ensures !Track(place, segs).Fault? ==>
      (Track(place, segs) == At(Fold(stack, segs)) <==>
        (lost == [] && PopsSafe(stack, segs)) || SafeFromRoot(stack, segs))
    decreases |segs|
  {
    hide SafeFromRoot, StepPlace;
    lost' := lost;
    assert !place.Fault? && stack == [] ==> lost == [];
    if place.Fault? {
      TrackFault(segs);
    } else if segs == [] {
      SafeFromRootEmpty(stack);
      if lost == [] && place.At? { assert stack == place.stack; }
    } else {
      var place', stack' := StepPlace(place, segs[0], |segs| == 1), Push(stack, segs[0]);
      var next := StepKeeps(place, lost, stack, segs[0], |segs| == 1);
      SafeFromRootStep(stack, segs);
      if place'.Fault? { TrackFault(segs[1..]); }
      if stack' == [] && PopsSafe([], segs[1..]) { SafeFromHere(stack', segs[1..]); }
      lost' := TrackKeeps(place', next, stack', segs[1..]);
    }
  }

  lemma SafeFromRootEmpty(stack: seq<string>)
    ensures SafeFromRoot(stack, []) <==> stack == []
  {
    var none: seq<string> := [];
    assert none[..0] == [] && none[0..] == [];
  }

  lemma SafeFromHere(stack: seq<string>, segs: seq<string>)
    requires stack == [] && PopsSafe([], segs)
    ensures SafeFromRoot(stack, segs)
  {
    assert segs[..0] == [] && segs[0..] == segs;
  }

  /** The code's names are always the last names of the fold. */
  lemma TrackIsSuffix(stack: seq<string>, segs: seq<string>)
    requires Track(At(stack), segs).At?
    ensures var kept, all := Track(At(stack), segs).stack, Fold(stack, segs);
      |kept| <= |all| && kept == all[|all| - |kept|..]
  {
    var lost := TrackKeeps(At(stack), [], stack, segs);
  }

  /**
   * The code computes the fold if and only if it does not overrun and, from the beginning or from a time when the fold
   * is the root, no ".." leads up to 255 characters.
   */
  lemma TrackIsFoldIff(stack: seq<string>, segs: seq<string>)
    ensures Track(At(stack), segs) == At(Fold(stack, segs)) <==>
      !Overruns(stack, segs) && (PopsSafe(stack, segs) || SafeFromRoot(stack, segs))
  {
    hide SafeFromRoot, Overruns, PopsSafe, Fold, Track;
    FaultIffOverruns(stack, segs);
    var lost := TrackKeeps(At(stack), [], stack, segs);
  }

  // ----- segments and texts -------------------------------------------------------------------

  predicate SegmentOk(seg: string) {
    '/' !in seg && '\0' !in seg
  }

  lemma {:induction false} SplitSegments(cur: string, s: string)
    requires SegmentOk(cur) && '\0' !in s
    ensures forall i :: 0 <= i < |Split(cur, s)| ==> SegmentOk(Split(cur, s)[i])
    ensures Split(cur, s) != []
    decreases |s|
  {
    if s != "" {
      if s[0] == '/' { SplitSegments("", s[1..]); } else { SplitSegments(cur + [s[0]], s[1..]); }
    }
  }

  lemma {:induction false} FoldCanonical(stack: seq<string>, segs: seq<string>)
    requires Canonical(stack) && forall i :: 0 <= i < |segs| ==> SegmentOk(segs[i])
    ensures Canonical(Fold(stack, segs))
    decreases |segs|
  {
    if segs != [] { FoldCanonical(Push(stack, segs[0]), segs[1..]); }
  }

  lemma {:induction false} FoldAppend(stack: seq<string>, a: seq<string>, b: seq<string>)
    ensures Fold(stack, a + b) == Fold(Fold(stack, a), b)
    decreases |a|
  {
    if a == [] {
      assert a + b == b;
    } else {
      assert (a + b)[1..] == a[1..] + b;
      FoldAppend(Push(stack, a[0]), a[1..], b);
    }
  }

  /** Splitting at the end: a name after a delimiter is one more segment. */
  lemma {:induction false} SplitName(cur: string, s: string, name: string)
    requires '/' !in name
    ensures Split(cur, s + "/" + name) == Split(cur, s) + [name]
    decreases |s|
  {
    var t := s + "/" + name;
    if s == "" {
      assert t == "/" + name && t[1..] == name;
      SplitPlain("", name);
      assert "" + name == name;
    } else {
      assert t[0] == s[0] && t[1..] == s[1..] + "/" + name;
      if s[0] == '/' {
        SplitName("", s[1..], name);
        assert [cur] + (Split("", s[1..]) + [name]) == [cur] + Split("", s[1..]) + [name];
      } else {
        SplitName(cur + [s[0]], s[1..], name);
      }
    }
  }

  lemma {:induction false} SplitPlain(cur: string, s: string)
    requires '/' !in s
    ensures Split(cur, s) == [cur + s]
    decreases |s|
  {
    if s == "" {
      assert cur + s == cur;
    } else {
      assert cur + s == (cur + [s[0]]) + s[1..];
      SplitPlain(cur + [s[0]], s[1..]);
    }
  }

  /** The segments of a canonical path's text are its names. */
  lemma {:induction false} TextSegments(stack: seq<string>)
    requires Canonical(stack)
    ensures Text(stack)[0] == '/'
    ensures stack == [] ==> Segments(Text(stack)) == [""]
    ensures stack != [] ==> Segments(Text(stack)) == stack
    decreases |stack|
  {
    if |stack| == 1 {
      assert Init(stack) == [] && Joined(stack) == "" + "/" + stack[0];
      assert Text(stack)[1..] == stack[0];
      SplitPlain("", stack[0]);
      assert "" + stack[0] == stack[0];
    } else if |stack| > 1 {
      TextSegments(Init(stack));
      var t, u := Text(stack), Text(Init(stack));
      assert t == u + "/" + Last(stack) && t[1..] == u[1..] + "/" + Last(stack);
      SplitName("", u[1..], Last(stack));
    }
  }

  lemma {:induction false} FoldNames(stack: seq<string>, names: seq<string>)
    requires Canonical(names)
    ensures Fold(stack, names) == stack + names
    decreases |names|
  {
    if names == [] {
      assert stack + names == stack;
    } else {
      FoldNames(stack + [names[0]], names[1..]);
      assert stack + [names[0]] + names[1..] == stack + names;
    }
  }

  /** Normalising a normalised text, from anywhere, gives it back; so texts tell stacks apart. */
  lemma NormalTwice(stack: seq<string>, elsewhere: seq<string>)
    requires Canonical(stack)
    ensures Fold(StartOf(Text(stack), elsewhere), Segments(Text(stack))) == stack
  {
    TextSegments(stack);
    if stack == [] {
      assert Fold([], [""]) == Fold(Push([], ""), [""][1..]);
    } else {
      FoldNames([], stack);
    }
  }

  lemma TextInjective(a: seq<string>, b: seq<string>)
    requires Canonical(a) && Canonical(b) && Text(a) == Text(b)
    ensures a == b
  {
    NormalTwice(a, []);
    NormalTwice(b, []);
  }

  // ----- lengths ------------------------------------------------------------------------------

  /** Characters of the segments, one more for each delimiter between them. */
  function Weight(segs: seq<string>): nat {
    if segs == [] then 0 else |segs[0]| + 1 + Weight(segs[1..])
  }

  lemma {:induction false} SplitWeight(cur: string, s: string)
    ensures Weight(Split(cur, s)) == |cur| + |s| + 1
    decreases |s|
  {
    if s != "" {
      if s[0] == '/' {
        SplitWeight("", s[1..]);
        assert Split(cur, s)[1..] == Split("", s[1..]);
      } else {
        SplitWeight(cur + [s[0]], s[1..]);
      }
    }
  }

  lemma {:induction false} FoldLength(stack: seq<string>, segs: seq<string>)
    ensures |Joined(Fold(stack, segs))| <= |Joined(stack)| + Weight(segs)
    decreases |segs|
  {
    if segs != [] {
      var next := Push(stack, segs[0]);
      if segs[0] == ".." && stack != [] {
        assert |Joined(stack)| == |Joined(Init(stack))| + 1 + |Last(stack)|;
      } else if next != stack {
        assert Init(next) == stack && Last(next) == segs[0];
      }
      FoldLength(next, segs[1..]);
    }
  }

  /** The normalised text is at most one character longer than the two inputs together. */
  lemma NormalLength(stack: seq<string>, path: string)
    requires Canonical(stack)
    ensures |Text(Fold(StartOf(path, stack), Segments(path)))| <= |Text(stack)| + |path| + 1
  {
    FoldLength(StartOf(path, stack), Segments(path));
    SplitWeight("", path);
    if path != "" { SplitWeight("", path[1..]); }
  }

  /** The names shown, without the delimiter that stands for the root. */
  function PlaceLength(place: Place): nat {
    match place
    case At(stack) => |Joined(stack)|
    case Void => 0
    case Fault => 0
  }

  lemma StepLength(place: Place, seg: string, last: bool)
    ensures PlaceLength(StepPlace(place, seg, last)) <= PlaceLength(place) + |seg| + 1
  {
    var next := StepPlace(place, seg, last);
    if place.At? && seg == ".." && place.stack != [] {
      assert |Joined(place.stack)| == |Joined(Init(place.stack))| + 1 + |Last(place.stack)|;
    } else if !place.Fault? && seg != "" && seg != "." && seg != ".." {
      var below := if place.At? then place.stack else [];
      assert next.stack == below + [seg];
      assert Last(next.stack) == seg && Init(next.stack) == below;
      assert |Joined(next.stack)| == |Joined(below)| + 1 + |seg|;
    }
  }

  lemma {:induction false} TrackLength(place: Place, segs: seq<string>)
    ensures PlaceLength(Track(place, segs)) <= PlaceLength(place) + Weight(segs)
    decreases |segs|
  {
    hide StepPlace, PlaceLength;
    if segs != [] {
      StepLength(place, segs[0], |segs| == 1);
      TrackLength(StepPlace(place, segs[0], |segs| == 1), segs[1..]);
    }
  }

  /** The same bound on every path, the sentinel met or not. */
  lemma ShownLength(stack: seq<string>, path: string)
    requires Canonical(stack) && !Track(At(StartOf(path, stack)), Segments(path)).Fault?
    ensures |Show(Track(At(StartOf(path, stack)), Segments(path)))| <= |Text(stack)| + |path| + 1
  {
    TrackLength(At(StartOf(path, stack)), Segments(path));
    SplitWeight("", path);
    if path != "" { SplitWeight("", path[1..]); }
  }

  /** Segments lengthen a path by their full weight only if each of them is a name. */
  lemma {:induction false} FoldLengthExact(stack: seq<string>, segs: seq<string>)
    requires forall i :: 0 <= i < |segs| ==> SegmentOk(segs[i])
    ensures |Joined(Fold(stack, segs))| == |Joined(stack)| + Weight(segs) <==> Canonical(segs)
    decreases |segs|
  {
    if segs != [] {
      var next := Push(stack, segs[0]);
      assert Canonical(segs) <==> Plain(segs[0]) && Canonical(segs[1..]);
      FoldLength(next, segs[1..]);
      FoldLengthExact(next, segs[1..]);
      if segs[0] == ".." && stack != [] {
        assert |Joined(stack)| == |Joined(Init(stack))| + 1 + |Last(stack)|;
      } else if next != stack {
        assert Init(next) == stack && Last(next) == segs[0];
      }
    }
  }

  lemma JoinedMore(stack: seq<string>, name: string)
    ensures |Joined(stack + [name])| == |Joined(stack)| + 1 + |name|
  {
    assert Init(stack + [name]) == stack;
  }

  lemma StepLengthExact(place: Place, seg: string, last: bool)
    requires SegmentOk(seg) && !StepPlace(place, seg, last).Fault?
    ensures PlaceLength(StepPlace(place, seg, last)) == PlaceLength(place) + |seg| + 1 <==> Plain(seg)
  {
    var next := StepPlace(place, seg, last);
    if place.At? && seg == ".." && place.stack != [] {
      assert |Joined(place.stack)| == |Joined(Init(place.stack))| + 1 + |Last(place.stack)|;
    } else if Plain(seg) {
      JoinedMore(if place.At? then place.stack else [], seg);
      assert [] + [seg] == [seg];
    }
  }

  lemma {:induction false} TrackLengthExact(place: Place, segs: seq<string>)
    requires (forall i :: 0 <= i < |segs| ==> SegmentOk(segs[i])) && !Track(place, segs).Fault?
    ensures PlaceLength(Track(place, segs)) == PlaceLength(place) + Weight(segs) <==> Canonical(segs)
    decreases |segs|
  {
    hide StepPlace, PlaceLength, Plain;
    if segs != [] {
      var next := StepPlace(place, segs[0], |segs| == 1);
      assert Canonical(segs) <==> Plain(segs[0]) && Canonical(segs[1..]);
      if next.Fault? { TrackFault(segs[1..]); }
      StepLength(place, segs[0], |segs| == 1);
      StepLengthExact(place, segs[0], |segs| == 1);
      TrackLength(next, segs[1..]);
      TrackLengthExact(next, segs[1..]);
    }
  }

  /** A relative path of plain names, from a directory other than the root. */
  predicate BufferTooShort(stack: seq<string>, path: string) {
    path != "" && path[0] != '/' && stack != [] && Canonical(Segments(path))
  }

  /**
   * The callers' buffers hold as many characters as both inputs together and a terminator. What the code writes, and
   * what it should, is one character longer exactly for such a path.
   */
  lemma BufferTooShortIff(stack: seq<string>, path: string)
    requires Canonical(stack) && '\0' !in path
    ensures |Text(Fold(StartOf(path, stack), Segments(path)))| > |Text(stack)| + |path| <==>
      BufferTooShort(stack, path)
    ensures !Track(At(StartOf(path, stack)), Segments(path)).Fault? ==>
      (|Show(Track(At(StartOf(path, stack)), Segments(path)))| > |Text(stack)| + |path| <==>
         BufferTooShort(stack, path))
  {
    hide Track;
    var start, segs := StartOf(path, stack), Segments(path);
    SplitSegments("", path);
    if path != "" {
      SplitSegments("", path[1..]);
      SplitWeight("", path[1..]);
    }
    SplitWeight("", path);
    FoldLength(start, segs);
    FoldLengthExact(start, segs);
    if !Track(At(start), segs).Fault? {
      TrackLength(At(start), segs);
      TrackLengthExact(At(start), segs);
    }
    if Canonical(segs) { FoldNames(start, segs); }
  }

  /** From "/a", the path "b" gives the four characters of "/a/b", where the buffer is declared for three. */
  lemma OneCharacterShort()
    ensures BufferTooShort(["a"], "b") && Track(At(StartOf("b", ["a"])), Segments("b")) == At(["a", "b"])
    ensures Text(["a"]) == "/a" && Text(["a", "b"]) == "/a/b"
  {
    SplitPlain("", "b");
    assert "" + "b" == "b" && Init(["a"]) == [] && Init(["a", "b"]) == ["a"];
    assert Segments("b") == ["b"] && ["b"][1..] == [] && ["a"] + ["b"] == ["a", "b"];
    assert Track(At(["a"]), ["b"]) == Track(At(["a", "b"]), []);
    assert Joined(["a", "b"]) == Joined(["a"]) + "/" + "b";
  }

  lemma {:induction false} ShortPopsSafe(stack: seq<string>, segs: seq<string>)
    requires |Joined(stack)| + Weight(segs) <= NONE + 3
    ensures PopsSafe(stack, segs)
    decreases |segs|
  {
    if segs != [] {
      var next := Push(stack, segs[0]);
      if segs[0] == ".." && stack != [] {
        assert |Joined(stack)| == |Joined(Init(stack))| + 1 + |Last(stack)|;
      } else if next != stack {
        assert Init(next) == stack && Last(next) == segs[0];
      }
      ShortPopsSafe(next, segs[1..]);
    }
  }

  /** Paths of up to 255 characters in all never meet the sentinel. */
  lemma ShortPathsSafe(stack: seq<string>, path: string)
    requires |Text(stack)| + |path| <= NONE
    ensures PopsSafe(StartOf(path, stack), Segments(path))
  {
    SplitWeight("", path);
    if path != "" { SplitWeight("", path[1..]); }
    ShortPopsSafe(StartOf(path, stack), Segments(path));
  }

  // ----- parents and names --------------------------------------------------------------------

  function LastIndex(s: string): (i: int)
    ensures -1 <= i < |s|
    ensures i >= 0 ==> s[i] == '/'
    ensures forall k :: i < k < |s| ==> s[k] != '/'
  {
    if s == "" then -1 else if Last(s) == '/' then |s| - 1 else LastIndex(Init(s))
  }

  /** fs_path_find_last_delimiter of a string that is not empty: one closing delimiter is passed over. */
  function LastDelimiter(s: string): (d: nat)
    requires s != ""
    ensures d == NONE || (d < |s| && s[d] == '/')
    ensures Last(s) == '/' && d != NONE ==> d + 1 < |s|
  {
    var i := LastIndex(if Last(s) == '/' then Init(s) else s);
    if i == -1 then NONE else i
  }

  /** What m rounds of fs_path_to_parent_path's loop leave: a prefix, "no delimiter", or a read before the string. */
  datatype Cut = Prefix(text: string) | Empty | Underrun

  function CutTimes(t: string, m: nat): Cut
    decreases m
  {
    if m == 0 then Prefix(t)
    else if t == "" then Underrun
    else if LastDelimiter(t) == NONE then Empty
    else CutTimes(t[..LastDelimiter(t)], m - 1)
  }

  /** fs_path_to_parent_path(path, buffer, k); None where the code reads before the string. */
  function ParentText(path: string, k: nat): Option<string> {
    match CutTimes(path, k + 1)
    case Prefix(t) => Some(if t == "" then "/" else t)
    case Empty => Some("")
    case Underrun => None
  }

  /** fs_path_to_name */
  function NameText(path: string): Option<string> {
    if path == "" then None
    else
      var d := LastDelimiter(path);
      if d == NONE then Some(path)
      else if Last(path) == '/' then Some(path[d + 1..|path| - 1])
      else Some(path[d + 1..])
  }

  lemma {:induction false} LastIndexAppend(a: string, c: string)
    requires '/' !in c
    ensures LastIndex(a + "/" + c) == |a|
    decreases |c|
  {
    var s := a + "/" + c;
    if c == "" {
      assert Last(s) == '/';
    } else {
      assert Last(s) == Last(c) && Init(s) == a + "/" + Init(c);
      LastIndexAppend(a, Init(c));
    }
  }

  /**
   * Name and parent of any path with a delimiter before its last name, whether another one closes it or not. At index
   * 255 that delimiter passes for none.
   */
  lemma NameAndParent(front: string, name: string, closing: string)
    requires '/' !in name && closing in {"", "/"} && (name != "" || closing == "/")
    ensures var path := front + "/" + name + closing;
      && (|front| != 255 ==>
            NameText(path) == Some(name) && ParentText(path, 0) == Some(if front == "" then "/" else front))
      && (|front| == 255 ==> NameText(path) == Some(path) && ParentText(path, 0) == Some(""))
  {
    var path := front + "/" + name + closing;
    var open := front + "/" + name;
    LastIndexAppend(front, name);
    assert closing == "" ==> path == open && Last(path) == Last(name);
    assert closing == "/" ==> Init(path) == open && Last(path) == '/';
    assert path[..|front|] == front && path[|front| + 1..][..|name|] == name;
    assert |front| != 255 ==> CutTimes(path, 1) == CutTimes(front, 0);
  }

  /** A path without such a delimiter is all name, a closing one included, and its parent comes out empty. */
  lemma NameAlone(name: string, closing: string)
    requires '/' !in name && closing in {"", "/"} && name + closing != ""
    ensures NameText(name + closing) == Some(name + closing) && ParentText(name + closing, 0) == Some("")
  {
    NoIndex(name);
    var path := name + closing;
    assert closing == "" ==> path == name && Last(path) == Last(name);
    assert closing == "/" ==> Init(path) == name && Last(path) == '/';
    assert CutTimes(path, 1) == Empty;
  }

  lemma {:induction false} NoIndex(s: string)
    requires '/' !in s
    ensures LastIndex(s) == -1
    decreases |s|
  {
    if s != "" { NoIndex(Init(s)); }
  }

  /** In a canonical path the last delimiter is the one before the last name; at index 255 it passes for none. */
  lemma LastDelimiterOfText(stack: seq<string>)
    requires Canonical(stack) && stack != []
    ensures LastDelimiter(Joined(stack)) == |Joined(Init(stack))|
    ensures Joined(stack) != "" && Joined(stack)[..|Joined(Init(stack))|] == Joined(Init(stack))
  {
    var name := Last(stack);
    assert Last(Joined(stack)) == Last(name);
    LastIndexAppend(Joined(Init(stack)), name);
  }

  /** The first j names of a path, for every j from n - k - 1 on, do not end at index 255. */
  ghost predicate CutsSafe(stack: seq<string>, k: nat) {
    forall j :: 0 <= j < |stack| && j >= |stack| - k - 1 ==> |Joined(stack[..j])| != NONE
  }

  lemma InitCanonical(stack: seq<string>)
    requires Canonical(stack) && stack != []
    ensures Canonical(Init(stack))
  {
  }

  lemma {:induction false} CutNames(stack: seq<string>, m: nat)
    requires Canonical(stack) && 0 < m <= |stack| && CutsSafe(stack, m - 1)
    ensures CutTimes(Joined(stack), m) == Prefix(Joined(stack[..|stack| - m]))
    decreases m
  {
    hide LastDelimiter, Joined, Canonical;
    InitCanonical(stack);
    LastDelimiterOfText(stack);
    assert Init(stack) == stack[..|stack| - 1];
    assert |Joined(stack[..|stack| - 1])| != NONE;
    assert CutTimes(Joined(stack), m) == CutTimes(Joined(Init(stack)), m - 1);
    if m > 1 {
      forall j | 0 <= j < |Init(stack)| && j >= |Init(stack)| - (m - 2) - 1
        ensures |Joined(Init(stack)[..j])| != NONE
      {
        assert Init(stack)[..j] == stack[..j];
      }
      CutNames(Init(stack), m - 1);
      assert Init(stack)[..|stack| - m] == stack[..|stack| - m];
    }
  }

  /** A cut at index 255 ends the rounds with no delimiter found. */
  lemma {:induction false} CutsUnsafe(stack: seq<string>, m: nat)
    requires Canonical(stack) && 0 < m <= |stack| && !CutsSafe(stack, m - 1)
    ensures CutTimes(Joined(stack), m) == Empty
    decreases m
  {
    hide LastDelimiter, Joined, Canonical;
    InitCanonical(stack);
    LastDelimiterOfText(stack);
    assert Init(stack) == stack[..|stack| - 1];
    if |Joined(Init(stack))| != NONE {
      var j :| 0 <= j < |stack| && j >= |stack| - m && |Joined(stack[..j])| == NONE;
      assert Init(stack)[..j] == stack[..j];
      CutsUnsafe(Init(stack), m - 1);
    }
  }

  /**
   * On a canonical path of n names and k < n, the k-th parent is exactly the first n - k - 1 names, if and only if no
   * delimiter cut at on the way is at index 255; otherwise the empty string comes out.
   */
  lemma ParentOfCanonical(stack: seq<string>, k: nat)
    requires Canonical(stack) && k < |stack|
    ensures ParentText(Text(stack), k) == Some(Text(stack[..|stack| - k - 1])) <==> CutsSafe(stack, k)
    ensures !CutsSafe(stack, k) ==> ParentText(Text(stack), k) == Some("")
  {
    hide CutTimes;
    if CutsSafe(stack, k) {
      CutNames(stack, k + 1);
    } else {
      CutsUnsafe(stack, k + 1);
    }
    var rest := stack[..|stack| - k - 1];
    assert rest != [] ==> Joined(rest) != "";
  }

  /** The immediate parent is found if and only if it does not end at index 255, where the empty string comes out. */
  lemma ParentFoundIff(stack: seq<string>)
    requires Canonical(stack) && stack != []
    ensures ParentText(Text(stack), 0) == Some(Text(Init(stack))) <==> |Joined(Init(stack))| != NONE
    ensures |Joined(Init(stack))| == NONE ==> ParentText(Text(stack), 0) == Some("")
  {
    LastDelimiterOfText(stack);
    assert CutTimes(Text(stack), 1) ==
      if |Joined(Init(stack))| == NONE then Empty else CutTimes(Joined(Init(stack)), 0);
    assert Init(stack) != [] ==> Joined(Init(stack)) != "";
  }

  /** Parent and name put together give the path back. */
  lemma ParentAndName(stack: seq<string>)
    requires Canonical(stack) && stack != [] && |Joined(Init(stack))| != NONE
    ensures NameText(Text(stack)) == Some(Last(stack))
    ensures Text(stack) == Joined(Init(stack)) + "/" + Last(stack)
  {
    LastDelimiterOfText(stack);
    var t, d := Text(stack), |Joined(Init(stack))|;
    assert t[d + 1..] == Last(stack);
  }

  // ----- where the code is not the fold -------------------------------------------------------

  function Five(name: string): seq<string> {
    [name, name, name, name, name]
  }

  lemma FiveLength(name: string)
    ensures |Joined(Five(name))| == 5 * |name| + 5
  {
    JoinedMore([], name);
    JoinedMore([name], name);
    JoinedMore([name, name], name);
    JoinedMore([name, name, name], name);
    JoinedMore([name, name, name, name], name);
    assert [] + [name] == [name] && [name] + [name] == [name, name] && [name, name] + [name] == [name, name, name];
    assert [name, name, name] + [name] == [name, name, name, name] && [name, name, name, name] + [name] == Five(name);
  }

  /** A ".." whose parent is 255 characters long empties the buffer instead, here from five names of 50 and a sixth. */
  lemma SentinelLosesParent(name: string)
    requires Plain(name) && |name| == 50
    ensures Track(At(Five(name) + ["q"]), Segments("..")) == Void
    ensures Fold(Five(name) + ["q"], Segments("..")) == Five(name)
  {
    FiveLength(name);
    assert Init(Five(name) + ["q"]) == Five(name);
    SplitPlain("", "..");
    assert "" + ".." == "..";
    assert Segments("..") == [".."];
  }

  function Ups(k: nat): seq<string> {
    seq(k, _ => "..")
  }

  lemma {:induction false} UpsToRoot(stack: seq<string>, k: nat, name: string)
    requires Plain(name) && |stack| <= k
    ensures Fold(stack, Ups(k) + [name]) == [name] == Fold([], [name])
    ensures Track(At([]), Ups(k) + [name]) == At([name])
    decreases k
  {
    var segs := Ups(k) + [name];
    assert [] + [name] == [name] && [name][1..] == [];
    if k == 0 {
      assert segs == [name];
    } else {
      assert segs[0] == ".." && segs[1..] == Ups(k - 1) + [name];
      UpsToRoot(if stack == [] then [] else Init(stack), k - 1, name);
    }
  }

  lemma LossStep(name: string, rest: seq<string>)
    requires Plain(name) && |name| == 50
    ensures Track(At(Five(name) + ["q"]), ["..", "x"] + rest) == Track(At(["x"]), rest)
    ensures Fold(Five(name) + ["q"], ["..", "x"] + rest) == Fold(Five(name) + ["x"], rest)
  {
    hide Joined;
    FiveLength(name);
    var segs := ["..", "x"] + rest;
    assert Init(Five(name) + ["q"]) == Five(name);
    assert segs[0] == ".." && segs[1..][0] == "x" && segs[1..][1..] == rest;
    assert Track(At(Five(name) + ["q"]), segs) == Track(Void, segs[1..]) == Track(At(["x"]), rest);
    assert Fold(Five(name) + ["q"], segs) == Fold(Five(name), segs[1..]) == Fold(Five(name) + ["x"], rest);
  }

  /** A name after that starts over from the root; with enough ".." behind it code and fold agree again. */
  lemma SentinelForgiven(name: string, k: nat)
    requires Plain(name) && |name| == 50 && k >= 6
    ensures Track(At(Five(name) + ["q"]), ["..", "x"]) == At(["x"])
    ensures Fold(Five(name) + ["q"], ["..", "x"]) == Five(name) + ["x"]
    ensures var segs := ["..", "x"] + (Ups(k) + ["y"]);
      Track(At(Five(name) + ["q"]), segs) == At(["y"]) == At(Fold(Five(name) + ["q"], segs))
  {
    hide Plain;
    LossStep(name, []);
    assert ["..", "x"] + [] == ["..", "x"];
    LossStep(name, Ups(k) + ["y"]);
    PlainY();
    UpsToRoot(Five(name) + ["x"], k, "y");
    UpsToRoot([], k - 1, "y");
    var segs := Ups(k) + ["y"];
    assert segs[0] == ".." && segs[1..] == Ups(k - 1) + ["y"] && Init(["x"]) == [];
    EmptyJoined();
  }

  lemma PlainY()
    ensures Plain("y")
  {
  }

  lemma EmptyJoined()
    ensures Joined([]) == ""
  {
  }

  /** ".." at the root, as the end of a path, runs past the terminator; "../" does not. */
  lemma ParentAtRootOverruns()
    ensures Track(At([]), Segments("..")) == Fault
    ensures Track(At([]), Segments("../")) == At([])
  {
    SplitPlain("", "..");
    assert "" + ".." == "..";
    assert Segments("..") == [".."];
    SplitName("", "..", "");
    assert ".." + "/" + "" == "../";
    assert Segments("../") == ["..", ""];
    assert ["..", ""][1..] == [""] && [""][1..] == [];
    assert Track(At([]), ["..", ""]) == Track(At([]), [""]) == Track(At([]), []);
  }
}
