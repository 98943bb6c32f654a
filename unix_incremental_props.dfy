/// What the incremental Unix parser reads, compared with the whole-path
/// reading: from the front it yields exactly the components of the
/// segment reading, and the two places where the code as written differs.
module UnixIncrementalProperties {
  import opened ByteSeq
  import opened Combinators
  import opened UnixComponentModel
  import opened UnixGrammar
  import opened UnixPathParser
  import opened UnixIncremental

  /// The components the segments of `s` denote once past the beginning:
  /// every `.` dropped
  function Later(s: Bytes): seq<UnixComponent> {
    DropCurDirs(ClassifyAll(Segments(s)), 1, false)
  }

  /// Past index 0, or under a root, `DropCurDirs` drops every `CurDir`
  /// whatever the index
  lemma {:induction false} DropAllSame(names: seq<UnixComponent>, index: nat, hasRoot: bool)
    requires index > 0 || hasRoot
    ensures DropCurDirs(names, index, hasRoot) == DropCurDirs(names, 1, false)
    decreases |names|
  {
    if names != [] {
      DropAllSame(names[1..], index + 1, hasRoot);
      DropAllSame(names[1..], 2, false);
    }
  }

  /// A skipped separator or lone `.` does not change the later components
  lemma SkipOne(s: Bytes)
    requires CurDirOrSeparator(s).Ok?
    ensures Later(s) == Later(s[1..])
  {
    if s[0] != SLASH {
      assert FirstMatch(IsSlash, s) == 1;
      SegmentsStep(s);
      assert s[..1] == CURRENT_DIR;
      var x := ClassifyAll(Segments(s[1..]));
      assert ClassifyAll(Segments(s)) == [CurDir] + x;
      assert ([CurDir] + x)[1..] == x;
      DropAllSame(x, 2, false);
    }
  }

  /// What the front parser skips once past the beginning does not change
  /// the later components
  lemma {:induction false} SkipAll(s: Bytes)
    ensures Later(s) == Later(s[SkipLen(s)..])
    decreases |s|
  {
    if s != [] && CurDirOrSeparator(s).Ok? {
      SkipOne(s);
      SkipAll(s[1..]);
      assert s[1..][SkipLen(s[1..])..] == s[SkipLen(s)..];
    }
  }

  /// Once past the beginning the front parser reads the first component
  /// after the skipped bytes
  lemma ParseFrontLater(input: Bytes)
    ensures ParseFront(NotAtBeginning, input) == WithTrailingSeparators(LaterComponent, input[SkipLen(input)..])
  {
  }

  /// On an input that starts with neither a separator nor a lone `.`, the
  /// later-component grammar reads what a whole-path name reads
  lemma LaterIsName(t: Bytes)
    requires t != [] && t[0] != SLASH && ParseCurDir(t).Fail?
    ensures WithTrailingSeparators(LaterComponent, t) == Name(t)
  {
    AnyOfTwo(ParseParentDir, ParseNormal, t);
    AnyOfThree(ParseParentDir, ParseCurDir, ParseNormal, t);
    assert LaterComponent(t) == FileOrDirName(t);
  }

  /// The first segment of such an input is not a lone `.`
  lemma FirstSegmentNotCurDir(t: Bytes)
    requires t != [] && ParseCurDir(t).Fail?
    ensures Classify(t[..FirstMatch(IsSlash, t)]) != CurDir
  {
  }

  /// One name and the rest: `Later` of a NUL-free input starting with a
  /// name whose classification is not `CurDir`
  lemma LaterStep(t: Bytes)
    requires t != [] && t[0] != SLASH
    requires Classify(t[..FirstMatch(IsSlash, t)]) != CurDir
    ensures var n := FirstMatch(IsSlash, t);
            Later(t) == [Classify(t[..n])] + Later(t[n..][LeadingSlashes(t[n..])..])
  {
    var n := FirstMatch(IsSlash, t);
    SegmentsStep(t);
    SegmentsSkipSlashes(t[n..]);
    var x := ClassifyAll(Segments(t[n..]));
    assert ClassifyAll(Segments(t)) == [Classify(t[..n])] + x;
    assert ([Classify(t[..n])] + x)[1..] == x;
    DropAllSame(x, 2, false);
  }

  /// Past the beginning, the front parser lists exactly the later
  /// components of a NUL-free input
  lemma {:induction false} FrontLater(s: Bytes)
    requires NulFree(s)
    ensures FrontList(NotAtBeginning, s) == Later(s)
    decreases |s|
  {
    var k := SkipLen(s);
    var t := s[k..];
    SkipAll(s);
    NulFreeDrop(s, k);
    ParseFrontLater(s);
    if t == [] {
      AnyOfTwo(ParseParentDir, ParseNormal, t);
    } else {
      LaterIsName(t);
      FirstSegmentNotCurDir(t);
      NameOnNulFree(t);
      var n := FirstMatch(IsSlash, t);
      var rest := t[n..][LeadingSlashes(t[n..])..];
      NulFreeDrop(t, n);
      NulFreeDrop(t[n..], LeadingSlashes(t[n..]));
      FrontLater(rest);
      LaterStep(t);
    }
  }

  /// The first component read from the front at the beginning: the root
  /// for a leading separator, otherwise the first segment classified
  lemma FrontFirst(s: Bytes)
    requires s != [] && NulFree(s)
    ensures s[0] == SLASH ==> ParseFront(AtBeginning, s) == Ok(s[1..][LeadingSlashes(s[1..])..], RootDir)
    ensures s[0] != SLASH ==>
              var n := FirstMatch(IsSlash, s);
              ParseFront(AtBeginning, s) == Ok(s[n..][LeadingSlashes(s[n..])..], Classify(s[..n]))
  {
    AnyOfFour(ParseRootDir, ParseParentDir, ParseCurDir, ParseNormal, s);
    if s[0] != SLASH {
      AnyOfThree(ParseParentDir, ParseCurDir, ParseNormal, s);
      assert FirstComponent(s) == FileOrDirName(s);
      NameOnNulFree(s);
    }
  }

  /// Read from the front, the incremental parser yields the components the
  /// whole-path reading gives any non-empty NUL-free path
  lemma FrontAgrees(input: Bytes)
    requires input != [] && NulFree(input)
    ensures FrontList(AtBeginning, input) == SpecComponents(input)
  {
    FrontFirst(input);
    if input[0] == SLASH {
      var rest := input[1..][LeadingSlashes(input[1..])..];
      SegmentsSkipSlashes(input[1..]);
      NulFreeDrop(input, 1);
      NulFreeDrop(input[1..], LeadingSlashes(input[1..]));
      FrontLater(rest);
      DropAllSame(ClassifyAll(Segments(input)), 0, true);
    } else {
      var n := FirstMatch(IsSlash, input);
      var rest := input[n..][LeadingSlashes(input[n..])..];
      NulFreeDrop(input, n);
      NulFreeDrop(input[n..], LeadingSlashes(input[n..]));
      FrontLater(rest);
      SegmentsStep(input);
      SegmentsSkipSlashes(input[n..]);
      var x := ClassifyAll(Segments(rest));
      assert ClassifyAll(Segments(input)) == [Classify(input[..n])] + x;
      assert ([Classify(input[..n])] + x)[1..] == x;
    }
  }

  /// With the incremental reading equal to the whole-path one, the front
  /// parser agrees with `parse` on every input `parse` accepts
  lemma FrontAgreesWithParse(input: Bytes)
    requires Parse(input).Some?
    ensures FrontList(AtBeginning, input) == Parse(input).value.components
  {
    ParseMatchesSegments(input);
    FrontAgrees(input);
  }

  /// A single segment, read from the front at the beginning, is one
  /// component and leaves nothing
  lemma FrontReadsOneSegment(seg: Bytes)
    requires seg != [] && NulFree(seg)
    requires forall k | 0 <= k < |seg| :: seg[k] != SLASH
    ensures ParseFront(AtBeginning, seg) == Ok([], Classify(seg))
  {
    AnyOfFour(ParseRootDir, ParseParentDir, ParseCurDir, ParseNormal, seg);
    AnyOfThree(ParseParentDir, ParseCurDir, ParseNormal, seg);
    assert FirstComponent(seg) == FileOrDirName(seg);
    SegLenNulFree(seg);
    FirstMatchUnique(IsSlash, seg, |seg|);
    assert seg[..|seg|] == seg && seg[|seg|..] == [];
  }

  /// `/` alone is the root
  lemma FrontReadsRoot(root: Bytes)
    requires root == [SLASH]
    ensures ParseFront(AtBeginning, root) == Ok([], RootDir)
  {
    AnyOfFour(ParseRootDir, ParseParentDir, ParseCurDir, ParseNormal, root);
    FirstMatchUnique(NotSlash, root[1..], 0);
  }

  /// `.` alone is the current directory
  lemma FrontReadsCurDir(dot: Bytes)
    requires dot == CURRENT_DIR
    ensures ParseFront(AtBeginning, dot) == Ok([], CurDir)
  {
    assert NulFree(dot) && dot[0] != SLASH;
    FrontReadsOneSegment(dot);
  }

  /// `..` alone is the parent directory
  lemma FrontReadsParentDir(dots: Bytes)
    requires dots == PARENT_DIR
    ensures ParseFront(AtBeginning, dots) == Ok([], ParentDir)
  {
    assert NulFree(dots) && dots[0] != SLASH && dots[1] != SLASH;
    FrontReadsOneSegment(dots);
  }

  /// `hello` alone is one normal name; with nothing left, a further call
  /// fails
  lemma FrontReadsHello(name: Bytes)
    requires name == [104, 101, 108, 108, 111]
    ensures ParseFront(AtBeginning, name) == Ok([], Normal(name))
    ensures ParseFront(NotAtBeginning, []).Fail?
  {
    assert NulFree(name) && forall k | 0 <= k < |name| :: name[k] != SLASH;
    FrontReadsOneSegment(name);
  }

  /// `abc\0def` from the front: the name stops at the NUL
  lemma FrontNameStopsAtNul(input: Bytes, name: Bytes, tail: Bytes)
    requires name == [97, 98, 99] && tail == [NUL, 100, 101, 102] && input == name + tail
    ensures ParseFront(AtBeginning, input) == Ok(tail, Normal(name))
  {
    AnyOfFour(ParseRootDir, ParseParentDir, ParseCurDir, ParseNormal, input);
    AnyOfThree(ParseParentDir, ParseCurDir, ParseNormal, input);
    assert FirstComponent(input) == FileOrDirName(input);
    FirstMatchUnique(IsDisallowed, input, 3);
    assert input[..3] == name && input[3..] == tail;
    FirstMatchUnique(NotSlash, tail, 0);
  }

  /// Nothing after the beginning starts with NUL
  lemma LaterFailsAtNul(tail: Bytes)
    requires tail != [] && tail[0] == NUL
    ensures ParseFront(NotAtBeginning, tail).Fail?
  {
    assert CurDirOrSeparator(tail).Fail?;
    ParseFrontLater(tail);
    assert SkipLen(tail) == 0 by {
      assert tail[0..] == tail;
    }
    AnyOfTwo(ParseParentDir, ParseNormal, tail);
  }

  /// `abc\0def` from the front: `abc`, then a call that fails at the NUL
  lemma FrontStopsAtNul(input: Bytes, name: Bytes, tail: Bytes)
    requires name == [97, 98, 99] && tail == [NUL, 100, 101, 102] && input == name + tail
    ensures ParseFront(AtBeginning, input) == Ok(tail, Normal(name))
    ensures ParseFront(NotAtBeginning, tail).Fail?
  {
    FrontNameStopsAtNul(input, name, tail);
    LaterFailsAtNul(tail);
  }

  // ---------------------------------------------------------------------------
  // The code as written

  /// `a` then the separator: the first call reads `a` and the separator
  lemma FrontReadsFirstName(input: Bytes, tail: Bytes)
    requires input == [97, SLASH, 98] && tail == [98]
    ensures ParseFrontAsWritten(AtBeginning, input) == Ok(tail, Normal([97]))
    ensures ParseFront(AtBeginning, input) == Ok(tail, Normal([97]))
  {
    AnyOfFour(ParseRootDir, ParseParentDir, ParseCurDir, ParseNormal, input);
    var after := [SLASH] + tail;
    assert input == [97] + after;
    NormalReadsName([97], after);
    FirstMatchUnique(NotSlash, after, 1);
    assert after[1..] == tail;
  }

  /// A name with nothing to skip before it: `take_while` fails, the
  /// optional skip does not
  lemma LaterNameWithoutSkip(tail: Bytes)
    requires tail == [98]
    ensures ParseFrontAsWritten(NotAtBeginning, tail).Fail?
    ensures ParseFront(NotAtBeginning, tail) == Ok([], Normal(tail))
  {
    assert CurDirOrSeparator(tail).Fail?;
    assert SkipLen(tail) == 0 by {
      assert tail[0..] == tail;
    }
    ParseFrontLater(tail);
    assert tail[0..] == tail;
    AnyOfTwo(ParseParentDir, ParseNormal, tail);
    NormalReadsName(tail, []);
    assert tail + [] == tail;
  }

  /// `a/b` as written: the first call reads `a` and leaves `b`; the second
  /// fails because there is no separator or `.` to skip before `b`. With
  /// the skip optional, the second call reads `b`.
  lemma FrontStopsAfterFirstName(input: Bytes, tail: Bytes)
    requires input == [97, SLASH, 98] && tail == [98]
    ensures ParseFrontAsWritten(AtBeginning, input) == Ok(tail, Normal([97]))
    ensures ParseFrontAsWritten(NotAtBeginning, tail).Fail?
    ensures ParseFront(NotAtBeginning, tail) == Ok([], Normal(tail))
  {
    FrontReadsFirstName(input, tail);
    LaterNameWithoutSkip(tail);
  }

  /// The as-written skip on `a/b.`: one byte, the `.`
  lemma TrailingSkipOfNameDot(input: Bytes, stem: Bytes)
    requires input == [97, SLASH, 98, DOT] && stem == [97, SLASH, 98]
    ensures TrailingSkipAsWritten(input, NUL) == 1
    ensures TrailingSkip(input) == 0
  {
    assert input[..3] == stem;
    assert TrailingSkipAsWritten(stem, DOT) == 0;
  }

  /// The run of non-separators at the end of `dir + seg` is `seg`
  lemma SplitAtLastSeparator(dir: Bytes, seg: Bytes)
    requires dir == [] || dir[|dir| - 1] == SLASH
    requires seg != [] && forall k | 0 <= k < |seg| :: seg[k] != SLASH
    ensures RTakeUntilByte1(NotSlash, dir + seg) == Ok(dir, seg)
  {
    var s := dir + seg;
    assert forall k | |dir| <= k < |s| :: s[k] == seg[k - |dir|];
    TrailingRunUnique(NotSlash, s, |seg|);
    assert s[..|dir|] == dir && s[|dir|..] == seg;
  }

  /// A whole name other than `..` is read whole by the later-component
  /// grammar
  lemma LaterReadsWholeName(seg: Bytes)
    requires seg != [] && seg != PARENT_DIR
    requires forall k | 0 <= k < |seg| :: !IsDisallowed(seg[k])
    ensures FullyConsumed(LaterComponent, seg) == Ok([], Normal(seg))
  {
    AnyOfTwo(ParseParentDir, ParseNormal, seg);
    assert |seg| == 2 && seg[0] == DOT && seg[1] == DOT ==> seg == PARENT_DIR;
    NormalReadsName(seg, []);
    assert seg + [] == seg;
  }

  /// The last segment of a path whose last segment is a name other than
  /// `..`: that name, with everything before it left
  lemma LastSegmentIsName(dir: Bytes, seg: Bytes)
    requires dir == [] || dir[|dir| - 1] == SLASH
    requires seg != [] && seg != PARENT_DIR
    requires forall k | 0 <= k < |seg| :: !IsDisallowed(seg[k])
    ensures LastSegment(dir + seg) == Ok(dir, Normal(seg))
  {
    SplitAtLastSeparator(dir, seg);
    LaterReadsWholeName(seg);
  }

  /// `a/b.` as written: the closure skips the `.` that ends `b.` (the byte
  /// scanned before it was not a `.`), so `next_back` reads `b`
  lemma BackAsWrittenDropsTrailingDot(input: Bytes, stem: Bytes, dir: Bytes)
    requires input == [97, SLASH, 98, DOT] && stem == [97, SLASH, 98] && dir == [97, SLASH]
    ensures ParseBackAsWritten(NotAtBeginning, input) == Ok(dir, Normal([98]))
  {
    TrailingSkipOfNameDot(input, stem);
    assert input[..3] == stem == dir + [98];
    LastSegmentIsName(dir, [98]);
  }

  /// Skipping only whole `.` components, `next_back` reads `b.` from `a/b.`
  lemma BackKeepsTrailingDot(input: Bytes, stem: Bytes, dir: Bytes)
    requires input == [97, SLASH, 98, DOT] && stem == [97, SLASH, 98] && dir == [97, SLASH]
    ensures ParseBack(NotAtBeginning, input) == Ok(dir, Normal([98, DOT]))
  {
    TrailingSkipOfNameDot(input, stem);
    assert input[..4] == input == dir + [98, DOT];
    LastSegmentIsName(dir, [98, DOT]);
  }
}
