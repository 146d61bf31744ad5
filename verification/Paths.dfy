/** The path functions of os/fs/fs_directory.c, writing NUL-terminated text into character buffers. */
module Paths {
  import opened Common
  import opened PathModel

  /** The buffer holds the string s, ended by a NUL. */
  ghost predicate Holds(buffer: seq<char>, s: string) {
    |s| < |buffer| && buffer[..|s|] == s && buffer[|s|] == '\0' && '\0' !in s
  }

  /** memcpy of a string and its terminator to a place in the buffer. */
  method CopyString(buffer: array<char>, at: nat, s: string)
    requires at + |s| < buffer.Length
    modifies buffer
    ensures buffer[..at] == old(buffer[..at])
    ensures buffer[at..at + |s|] == s && buffer[at + |s|] == '\0'
  {
    for i := 0 to |s|
      invariant buffer[..at] == old(buffer[..at])
      invariant forall k :: 0 <= k < i ==> buffer[at + k] == s[k]
    {
      buffer[at + i] := s[i];
    }
    buffer[at + |s|] := '\0';
  }

  /** strcpy */
  method CopyWhole(buffer: array<char>, s: string)
    requires |s| < buffer.Length && '\0' !in s
    modifies buffer
    ensures Holds(buffer[..], s)
  {
    CopyString(buffer, 0, s);
    assert buffer[..][..|s|] == buffer[0..0 + |s|];
  }

  /** strlen */
  method Length(buffer: array<char>, ghost s: string) returns (n: nat)
    requires Holds(buffer[..], s)
    ensures n == |s|
  {
    n := 0;
    NoNulInside(buffer[..], s);
    assert buffer[|s|] == '\0';
    while buffer[n] != '\0'
      invariant n <= |s|
      decreases |s| - n
    {
      n := n + 1;
    }
  }

  lemma NoNulInside(buffer: seq<char>, s: string)
    requires Holds(buffer, s)
    ensures forall k :: 0 <= k < |s| ==> buffer[k] != '\0'
  {
    forall k | 0 <= k < |s| ensures buffer[k] != '\0' {
      assert buffer[..|s|][k] == s[k] && s[k] in s;
    }
  }

  /** fs_path_find_last_delimiter, which reads the character before an empty string. */
  method FindLastDelimiter(path: string) returns (d: nat)
    requires path != ""
    ensures d == LastDelimiter(path)
  {
    var length := |path|;
    var index := length - 1;
    if path[index] == '/' {
      index := index - 1;
      length := length - 1;
    }
    assert path[..length] == if Last(path) == '/' then Init(path) else path;
    ghost var body := path[..length];
    for i := 0 to length
      invariant index == length - 1 - i
      invariant LastIndex(body) == LastIndex(body[..index + 1])
    {
      assert body[..index + 1] != "" && Last(body[..index + 1]) == path[index];
      if path[index] == '/' {
        return index;
      }
      assert Init(body[..index + 1]) == body[..index];
      index := index - 1;
    }
    assert body[..0] == "";
    return NONE;
  }

  /** fs_path_to_parent_path. The fault is a read before the start of the string. */
  method ToParentPath(path: string, buffer: array<char>, k: nat) returns (fault: bool)
    requires '\0' !in path && |path| < buffer.Length && 2 <= buffer.Length
    modifies buffer
    ensures fault <==> ParentText(path, k) == None
    ensures !fault ==> Holds(buffer[..], ParentText(path, k).value)
  {
    hide LastDelimiter, Holds;
    CopyWhole(buffer, path);
    var pathEnd := NONE;
    var text := path;
    for i := 0 to k + 1
      invariant |text| <= |path| && text == path[..|text|] && Holds(buffer[..], text)
      invariant CutTimes(text, k + 1 - i) == CutTimes(path, k + 1)
      invariant i > 0 ==> pathEnd == |text|
    {
      if text == "" {
        return true;
      }
      pathEnd := FindLastDelimiter(text);
      if pathEnd == NONE {
        Terminate(buffer);
        return false;
      }
      assert path[..pathEnd] == text[..pathEnd];
      text := text[..pathEnd];
      CopyWhole(buffer, path[..pathEnd]);
    }
    if pathEnd == 0 {
      CopyWhole(buffer, "/");
    }
    return false;
  }

  /** buffer[0] = '\0' */
  method Terminate(buffer: array<char>)
    requires buffer.Length > 0
    modifies buffer
    ensures Holds(buffer[..], "")
  {
    buffer[0] := '\0';
  }

  /** fs_path_to_name */
  method ToName(path: string, buffer: array<char>) returns (fault: bool)
    requires '\0' !in path && |path| < buffer.Length
    modifies buffer
    ensures fault <==> NameText(path) == None
    ensures !fault ==> Holds(buffer[..], NameText(path).value)
  {
    if path == "" {
      return true;
    }
    var nameStart := FindLastDelimiter(path);
    if nameStart == NONE {
      CopyWhole(buffer, path);
      return false;
    }
    nameStart := nameStart + 1;
    var nameLength := |path| - nameStart;
    if path[|path| - 1] == '/' {
      nameLength := nameLength - 1;
    }
    CopyWhole(buffer, path[nameStart..nameStart + nameLength]);
    return false;
  }

  // ----- fs_path_normalize --------------------------------------------------------------------

  /** The k-th parent's text, as callers of fs_path_to_parent_path take it from a buffer of their own. */
  method ParentAt(path: string, k: nat) returns (text: string, fault: bool)
    requires '\0' !in path
    ensures fault <==> ParentText(path, k) == None
    ensures !fault ==> Some(text) == ParentText(path, k) && '\0' !in text
  {
    var buffer := new char[|path| + 2];
    fault := ToParentPath(path, buffer, k);
    text := "";
    if !fault {
      var length := Length(buffer, ParentText(path, k).value);
      assert buffer[..][..length] == buffer[..length];
      text := buffer[..length];
    }
  }

  /** The name, as callers of fs_path_to_name take it from a buffer of their own. */
  method NameOf(path: string) returns (name: string, fault: bool)
    requires '\0' !in path
    ensures fault <==> NameText(path) == None
    ensures !fault ==> Some(name) == NameText(path)
  {
    var buffer := new char[|path| + 2];
    fault := ToName(path, buffer);
    name := "";
    if !fault {
      var length := Length(buffer, NameText(path).value);
      assert buffer[..][..length] == buffer[..length];
      name := buffer[..length];
    }
  }

  /** The local state of fs_path_normalize: the buffer shows the place, the flag says whether that is the root. */
  ghost predicate Local(buffer: seq<char>, bufferIndex: nat, inRoot: bool, place: Place) {
    && !place.Fault? && Holds(buffer, Show(place)) && bufferIndex == |Show(place)|
    && (inRoot <==> place == At([]))
    && (place.At? ==> Canonical(place.stack))
  }

  /** One character of the path: a delimiter closes the segment, anything else joins it. */
  lemma SplitStep(seg: string, rest: string)
    ensures Split(seg, rest) != []
    ensures rest == "" ==> Split(seg, rest) == [seg]
    ensures rest != "" && rest[0] == '/' ==>
      Split(seg, rest)[0] == seg && Split(seg, rest)[1..] == Split("", rest[1..]) && |Split(seg, rest)| > 1
    ensures rest != "" && rest[0] != '/' ==> Split(seg, rest) == Split(seg + [rest[0]], rest[1..])
  {
    SplitNonEmpty(seg, rest);
    if rest != "" && rest[0] == '/' { SplitNonEmpty("", rest[1..]); }
  }

  lemma {:induction false} SplitNonEmpty(seg: string, rest: string)
    ensures Split(seg, rest) != []
    decreases |rest|
  {
    if rest != "" && rest[0] != '/' { SplitNonEmpty(seg + [rest[0]], rest[1..]); }
  }

  lemma TextOfName(stack: seq<string>, name: string)
    requires Canonical(stack) && Plain(name)
    ensures Canonical(stack + [name])
    ensures Text(stack + [name]) == if stack == [] then "/" + name else Text(stack) + "/" + name
    ensures stack != [] ==> '\0' !in Text(stack)
  {
    assert Init(stack + [name]) == stack && Last(stack + [name]) == name;
    assert stack == [] ==> Joined(stack) == "" && "" + "/" == "/";
    NoNulInText(stack);
  }

  lemma {:induction false} NoNulInText(stack: seq<string>)
    requires Canonical(stack)
    ensures '\0' !in Text(stack)
    decreases |stack|
  {
    if |stack| == 1 {
      assert Init(stack) == [];
      assert Joined(stack) == "" + "/" + stack[0];
    } else if |stack| > 1 {
      NoNulInText(Init(stack));
      assert Text(stack) == Text(Init(stack)) + "/" + Last(stack);
    }
  }

  /** The ".." branch below the root: back to the parent's text. */
  method PopSegment(buffer: array<char>, bufferIndex: nat, ghost place: Place)
    returns (fault: bool, index: nat, inRoot: bool)
    requires buffer.Length >= 2 && Local(buffer[..], bufferIndex, false, place)
    modifies buffer
    ensures fault <==> StepPlace(place, "..", false).Fault?
    ensures !fault ==> Local(buffer[..], index, inRoot, StepPlace(place, "..", false)) && index <= bufferIndex
  {
    ghost var next := StepPlace(place, "..", false);
    assert buffer[..bufferIndex] == Show(place);
    if place.At? {
      ParentFoundIff(place.stack);
      InitCanonical(place.stack);
      NoNulInText(Init(place.stack));
      TextOne(Init(place.stack));
      TextOne(place.stack);
      TextShrinks(place.stack);
    }
    fault := ToParentPath(buffer[..bufferIndex], buffer, 0);
    index, inRoot := 0, false;
    if !fault {
      index := Length(buffer, Show(next));
      if index == 1 {
        inRoot := true;
      }
    }
  }

  lemma TextShrinks(stack: seq<string>)
    requires Canonical(stack) && stack != []
    ensures |Text(Init(stack))| <= |Text(stack)|
  {
    assert |Joined(stack)| == |Joined(Init(stack))| + 1 + |Last(stack)|;
  }

  lemma TextOne(stack: seq<string>)
    requires Canonical(stack)
    ensures |Text(stack)| == 1 <==> stack == []
  {
    if stack != [] {
      assert |Joined(stack)| == |Joined(Init(stack))| + 1 + |Last(stack)|;
    }
  }

  /** The branch for a plain name: a delimiter unless at the root, then the name. */
  method PushSegment(buffer: array<char>, bufferIndex: nat, inRoot: bool, seg: string, ghost place: Place)
    returns (index: nat)
    requires Local(buffer[..], bufferIndex, inRoot, place) && Plain(seg)
    requires bufferIndex + |seg| + (if inRoot then 0 else 1) < buffer.Length
    modifies buffer
    ensures Local(buffer[..], index, false, StepPlace(place, seg, false))
    ensures index <= bufferIndex + |seg| + 1
  {
    hide Show, StepPlace, Canonical, Plain;
    ghost var next := StepPlace(place, seg, false);
    NamePushed(place, seg, inRoot);
    index := bufferIndex;
    if !inRoot {
      buffer[index] := '/';
      index := index + 1;
    }
    ghost var start := index;
    assert buffer[..index] == if inRoot then Show(place) else Show(place) + "/";
    CopyString(buffer, index, seg);
    assert buffer[..][..start + |seg|] == buffer[..start] + buffer[start..start + |seg|];
    index := Length(buffer, Show(next));
  }

  /** The text once a name is appended. */
  lemma NamePushed(place: Place, seg: string, inRoot: bool)
    requires !place.Fault? && Plain(seg) && (place.At? ==> Canonical(place.stack)) && (inRoot <==> place == At([]))
    ensures var next := StepPlace(place, seg, false);
      && next.At? && next != At([]) && Canonical(next.stack)
      && Show(next) == (if inRoot then Show(place) else Show(place) + "/") + seg && '\0' !in Show(next)
  {
    if place.At? {
      TextOfName(place.stack, seg);
      NoNulInText(place.stack + [seg]);
    } else {
      TextOfFirst(seg);
      NoNulInText([seg]);
    }
  }

  lemma TextOfFirst(name: string)
    requires Plain(name)
    ensures Canonical([name]) && Text([name]) == "" + "/" + name
  {
    assert Init([name]) == [] && Last([name]) == name;
    assert Joined([name]) == Joined([]) + "/" + name;
  }

  /** The text a path leads to from a canonical cwd, or nothing where the code runs off a string. */
  function NormalPlace(path: string, stack: seq<string>): Place {
    Track(At(StartOf(path, stack)), Segments(path))
  }

  lemma NormalOfEmpty(stack: seq<string>)
    ensures NormalPlace("", stack) == At(stack)
  {
    assert Segments("") == [""];
    assert [""][1..] == [];
    assert Track(At(stack), [""]) == Track(At(stack), []);
  }

  lemma SegmentsFrom(path: string)
    requires path != ""
    ensures Segments(path) == Split("", path[if path[0] == '/' then 1 else 0..])
  {
    assert path[0..] == path;
  }

  lemma TrackUnfold(place: Place, segs: seq<string>)
    requires segs != []
    ensures Track(place, segs) == Track(StepPlace(place, segs[0], |segs| == 1), segs[1..])
    ensures |segs| == 1 ==> Track(place, segs) == StepPlace(place, segs[0], true)
  {
  }

  /** What fs_path_normalize does at the end of a segment. A final ".." at the root is the fault. */
  method TakeSegment(buffer: array<char>, bufferIndex: nat, wasRoot: bool, segment: string, last: bool,
                     ghost place: Place) returns (fault: bool, index: nat, inRoot: bool)
    requires buffer.Length >= 2 && SegmentOk(segment) && Local(buffer[..], bufferIndex, wasRoot, place)
    requires Plain(segment) ==> bufferIndex + |segment| + (if wasRoot then 0 else 1) < buffer.Length
    modifies buffer
    ensures fault <==> StepPlace(place, segment, last).Fault?
    ensures !fault ==> Local(buffer[..], index, inRoot, StepPlace(place, segment, last))
    ensures !fault ==> index <= bufferIndex + |segment| + 1
  {
    hide Canonical, Plain, StepPlace, Holds, Show;
    StepLast(place, segment, last, wasRoot);
    fault, index, inRoot := false, bufferIndex, wasRoot;
    if segment == ".." && wasRoot {
      fault := last;
    } else if segment == ".." {
      fault, index, inRoot := PopSegment(buffer, bufferIndex, place);
    } else if |segment| != 0 && segment != "." {
      SegmentPlain(segment);
      index := PushSegment(buffer, bufferIndex, wasRoot, segment, place);
      inRoot := false;
    } else {
      StepStays(place, segment, last);
    }
  }

  /**
   * fs_path_normalize, from a canonical cwd_path, into a buffer that holds both strings together and the result.
   * Without a fault the buffer shows exactly the place Track leads to, and the root flag is set exactly when that is
   * "/".
   */
  method Normalize(path: string, cwdPath: string, buffer: array<char>, ghost stack: seq<string>)
    returns (fault: bool, inRoot: bool)
    requires '\0' !in path && Canonical(stack) && cwdPath == Text(stack)
    requires |cwdPath| + |path| < buffer.Length
    requires !NormalPlace(path, stack).Fault? ==> |Show(NormalPlace(path, stack))| < buffer.Length
    modifies buffer
    ensures fault <==> NormalPlace(path, stack).Fault?
    ensures !fault ==> Holds(buffer[..], Show(NormalPlace(path, stack)))
    ensures !fault ==> (inRoot <==> Show(NormalPlace(path, stack)) == "/")
  {
    hide Track, Split, Canonical, Text, Joined, Plain, StepPlace, Holds, Segments;
    NoNulInText(stack);
    CopyWhole(buffer, cwdPath);
    var bufferIndex: nat, pathIndex: nat := |cwdPath|, 0;
    TextOne(stack);
    RootText(stack);
    inRoot := cwdPath == "/";
    if |path| == 0 {
      NormalOfEmpty(stack);
      return false, inRoot;
    }
    var segment := "";
    ghost var place := At(stack);
    if path[0] == '/' {
      CopyWhole(buffer, "/");
      pathIndex, bufferIndex, inRoot := 1, 1, true;
      place := At([]);
      EmptyCanonical();
    }
    SegmentsFrom(path);
    while true
      invariant pathIndex <= |path| && SegmentOk(segment)
      invariant Local(buffer[..], bufferIndex, inRoot, place)
      invariant bufferIndex + |segment| + (|path| - pathIndex) <= |cwdPath| + |path|
      invariant Track(place, Split(segment, path[pathIndex..])) == NormalPlace(path, stack)
      decreases |path| - pathIndex
    {
      SplitStep(segment, path[pathIndex..]);
      TrackUnfold(place, Split(segment, path[pathIndex..]));
      if pathIndex < |path| && path[pathIndex] != '/' {
        assert path[pathIndex..][1..] == path[pathIndex + 1..];
        assert path[pathIndex] in path;
        segment := segment + [path[pathIndex]];
        pathIndex := pathIndex + 1;
        continue;
      }
      var last := pathIndex == |path|;
      if Plain(segment) { NamePushed(place, segment, inRoot); }
      StepLast(place, segment, last, inRoot);
      fault, bufferIndex, inRoot := TakeSegment(buffer, bufferIndex, inRoot, segment, last, place);
      if fault {
        // at the end of the path, path_index has stepped past the terminator
        TrackFault(Split(segment, path[pathIndex..])[1..]);
        return true, inRoot;
      }
      place := StepPlace(place, segment, last);
      if last {
        RootShown(place);
        return false, inRoot;
      }
      assert path[pathIndex..][1..] == path[pathIndex + 1..];
      segment := "";
      pathIndex := pathIndex + 1;
    }
  }

  /**
   * The normalised text, as the callers of fs_path_normalize take it from a buffer of their own. They declare it for
   * the characters of both strings and a terminator; the model gives it one more, and reports when that is needed.
   */
  method NormalOf(path: string, cwdPath: string, ghost stack: seq<string>)
    returns (text: string, fault: bool, short: bool)
    requires '\0' !in path && Canonical(stack) && cwdPath == Text(stack)
    ensures fault <==> NormalPlace(path, stack).Fault?
    ensures !fault ==> text == Show(NormalPlace(path, stack))
    ensures short <==> !fault && |Show(NormalPlace(path, stack))| > |cwdPath| + |path|
    ensures short <==> !fault && BufferTooShort(stack, path)
  {
    hide Track, BufferTooShort, Canonical, Split;
    var buffer := new char[|cwdPath| + |path| + 2];
    if !NormalPlace(path, stack).Fault? { ShownLength(stack, path); }
    BufferTooShortIff(stack, path);
    var inRoot;
    fault, inRoot := Normalize(path, cwdPath, buffer, stack);
    text, short := "", false;
    if !fault {
      var length := Length(buffer, Show(NormalPlace(path, stack)));
      assert buffer[..][..length] == buffer[..length];
      text, short := buffer[..length], length > |cwdPath| + |path|;
    }
  }

  lemma RootShown(place: Place)
    requires !place.Fault? && (place.At? ==> Canonical(place.stack))
    ensures Show(place) == "/" <==> place == At([])
  {
    if place.At? { RootText(place.stack); }
  }

  lemma EmptyCanonical()
    ensures Canonical([]) && Text([]) == "/"
  {
  }

  lemma RootText(stack: seq<string>)
    requires Canonical(stack)
    ensures Text(stack) == "/" <==> stack == []
  {
    TextOne(stack);
  }

  lemma SegmentPlain(seg: string)
    requires SegmentOk(seg) && seg != "" && seg != "." && seg != ".."
    ensures Plain(seg)
  {
  }

  /** Only ".." at the root depends on being the last segment. */
  lemma StepLast(place: Place, seg: string, last: bool, inRoot: bool)
    requires inRoot <==> place == At([])
    ensures seg == ".." ==> !inRoot || StepPlace(place, seg, last) == if last then Fault else At([])
    ensures seg != ".." || !inRoot ==> StepPlace(place, seg, last) == StepPlace(place, seg, false)
  {
  }

  lemma StepStays(place: Place, seg: string, last: bool)
    requires seg == "" || seg == "."
    ensures StepPlace(place, seg, last) == place
  {
  }
}
