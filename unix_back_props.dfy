/// Reading a Unix path from the back: `next_back` yields the components of
/// the segment reading, last first, so that iterating from either end lists
/// the same components.
module UnixBackProperties {
  import opened ByteSeq
  import opened Combinators
  import opened UnixComponentModel
  import opened UnixGrammar
  import opened UnixPathParser
  import opened UnixPathParserProperties
  import opened UnixIncremental
  import opened UnixIncrementalProperties

  /// Segments of a concatenation split at a separator are the segments of
  /// the two parts
  lemma {:induction false} SegmentsAppend(x: Bytes, y: Bytes)
    requires x == [] || y == [] || x[|x| - 1] == SLASH || y[0] == SLASH
    ensures Segments(x + y) == Segments(x) + Segments(y)
    decreases |x|, 1
  {
    var s := x + y;
    if x == [] {
      assert s == y;
    } else if y == [] {
      assert s == x;
    } else if x[0] == SLASH {
      assert s[1..] == x[1..] + y;
      SegmentsAppend(x[1..], y);
    } else {
      SegmentsAppendName(x, y);
    }
  }

  /// The case of `SegmentsAppend` where `x` starts with a name
  lemma {:induction false} SegmentsAppendName(x: Bytes, y: Bytes)
    requires x != [] && y != [] && x[0] != SLASH
    requires x[|x| - 1] == SLASH || y[0] == SLASH
    ensures Segments(x + y) == Segments(x) + Segments(y)
    decreases |x|, 0
  {
    var m := FirstMatch(IsSlash, x);
    if m < |x| {
      var s := x + y;
      assert forall k | 0 <= k < |x| :: s[k] == x[k];
      FirstMatchUnique(IsSlash, s, m);
      assert s[..m] == x[..m];
      assert s[m..] == x[m..] + y;
      assert x[m..][|x[m..]| - 1] == x[|x| - 1];
      SegmentsAppend(x[m..], y);
    } else {
      SegmentsAppendWholeName(x, y);
    }
  }

  /// The case of `SegmentsAppendName` where `x` is one name and `y` starts
  /// with a separator
  lemma SegmentsAppendWholeName(x: Bytes, y: Bytes)
    requires x != [] && y != [] && x[0] != SLASH && y[0] == SLASH
    requires FirstMatch(IsSlash, x) == |x|
    ensures Segments(x + y) == Segments(x) + Segments(y)
  {
    var s := x + y;
    assert forall k | 0 <= k < |x| :: s[k] == x[k];
    FirstMatchUnique(IsSlash, s, |x|);
    assert s[..|x|] == x && s[|x|..] == y;
    assert x[..|x|] == x && x[|x|..] == [];
  }

  lemma {:induction false} ClassifyAllAppend(a: seq<Bytes>, b: seq<Bytes>)
    ensures ClassifyAll(a + b) == ClassifyAll(a) + ClassifyAll(b)
    decreases |a|
  {
    if a == [] {
      assert a + b == b;
    } else {
      assert (a + b)[1..] == a[1..] + b;
      ClassifyAllAppend(a[1..], b);
    }
  }

  lemma {:induction false} DropCurDirsAppend(a: seq<UnixComponent>, b: seq<UnixComponent>, index: nat, hasRoot: bool)
    ensures DropCurDirs(a + b, index, hasRoot) == DropCurDirs(a, index, hasRoot) + DropCurDirs(b, index + |a|, hasRoot)
    decreases |a|
  {
    if a == [] {
      assert a + b == b;
    } else {
      assert (a + b)[1..] == a[1..] + b;
      DropCurDirsAppend(a[1..], b, index + 1, hasRoot);
    }
  }

  /// Separators and lone `.`s: each `.` has a separator, or nothing, on
  /// either side
  predicate LoneDots(t: Bytes) {
    forall i | 0 <= i < |t| ::
      t[i] == SLASH || (t[i] == DOT && (i == 0 || t[i - 1] == SLASH) && (i == |t| - 1 || t[i + 1] == SLASH))
  }

  /// Separators and lone `.`s denote no component once past the first
  lemma {:induction false} LoneDotsVanish(t: Bytes, index: nat, hasRoot: bool)
    requires LoneDots(t) && (index > 0 || hasRoot)
    ensures DropCurDirs(ClassifyAll(Segments(t)), index, hasRoot) == []
    decreases |t|
  {
    if t != [] {
      assert forall i | 0 <= i < |t| - 1 :: t[1..][i] == t[i + 1];
      assert LoneDots(t[1..]);
      if t[0] == SLASH {
        LoneDotsVanish(t[1..], index, hasRoot);
      } else {
        FirstMatchUnique(IsSlash, t, 1);
        SegmentsStep(t);
        assert t[..1] == CURRENT_DIR;
        var x := ClassifyAll(Segments(t[1..]));
        assert ClassifyAll(Segments(t)) == [CurDir] + x;
        assert ([CurDir] + x)[1..] == x;
        LoneDotsVanish(t[1..], index + 1, hasRoot);
      }
    }
  }

  /// The trailing bytes `TrailingSkip` counts are separators and lone `.`s;
  /// when something is kept before them, they start with a separator
  lemma {:induction false} TrailingSkipLoneDots(s: Bytes)
    ensures LoneDots(s[|s| - TrailingSkip(s)..])
    ensures 0 < TrailingSkip(s) < |s| ==> s[|s| - TrailingSkip(s)] == SLASH
    decreases |s|
  {
    var m := TrailingSkip(s);
    if m > 0 {
      var s' := s[..|s| - 1];
      var b := s[|s| - 1];
      TrailingSkipLoneDots(s');
      assert m == 1 + TrailingSkip(s');
      var t' := s'[|s'| - (m - 1)..];
      var t := s[|s| - m..];
      assert t == t' + [b];
      assert t'!= [] ==> t'[|t'| - 1] == s[|s| - 2];
      assert b == DOT && |s| >= 2 ==> s[|s| - 2] == SLASH;
      LoneDotsSnoc(t', b);
    }
  }

  /// A separator, or a `.` after a separator or at the start, extends a run
  /// of separators and lone `.`s
  lemma LoneDotsSnoc(t: Bytes, b: byte)
    requires LoneDots(t)
    requires b == SLASH || (b == DOT && (t == [] || t[|t| - 1] == SLASH))
    ensures LoneDots(t + [b])
  {
    var u := t + [b];
    forall i | 0 <= i < |u|
      ensures u[i] == SLASH || (u[i] == DOT && (i == 0 || u[i - 1] == SLASH) && (i == |u| - 1 || u[i + 1] == SLASH))
    {
      if i < |t| {
        assert u[i] == t[i];
        assert i > 0 ==> u[i - 1] == t[i - 1];
      }
    }
  }

  /// Segments of separators and lone `.`s after other segments add no
  /// component past the first
  lemma DropAfterLoneDots(a: seq<Bytes>, tail: Bytes, index: nat, hasRoot: bool)
    requires LoneDots(tail) && (index + |a| > 0 || hasRoot)
    ensures DropCurDirs(ClassifyAll(a + Segments(tail)), index, hasRoot) == DropCurDirs(ClassifyAll(a), index, hasRoot)
  {
    var b := Segments(tail);
    ClassifyAllAppend(a, b);
    var ca := ClassifyAll(a);
    var cb := ClassifyAll(b);
    DropCurDirsAppend(ca, cb, index, hasRoot);
    LoneDotsVanish(tail, index + |a|, hasRoot);
    var kept := DropCurDirs(ca, index, hasRoot);
    assert kept + [] == kept;
  }

  /// Stripping the trailing bytes `TrailingSkip` counts changes no
  /// component past the first
  lemma StripKeeps(s: Bytes, index: nat, hasRoot: bool)
    requires index > 0 || hasRoot || Segments(s[..|s| - TrailingSkip(s)]) != []
    ensures DropCurDirs(ClassifyAll(Segments(s)), index, hasRoot)
         == DropCurDirs(ClassifyAll(Segments(s[..|s| - TrailingSkip(s)])), index, hasRoot)
  {
    var m := TrailingSkip(s);
    var stripped := s[..|s| - m];
    var tail := s[|s| - m..];
    assert s == stripped + tail;
    TrailingSkipLoneDots(s);
    SegmentsAppend(stripped, tail);
    DropAfterLoneDots(Segments(stripped), tail, index, hasRoot);
  }

  /// The last segment of a path whose last segment is `..`
  lemma LastSegmentIsParent(dir: Bytes, seg: Bytes)
    requires dir == [] || dir[|dir| - 1] == SLASH
    requires seg == PARENT_DIR
    ensures LastSegment(dir + seg) == Ok(dir, ParentDir)
  {
    SplitAtLastSeparator(dir, seg);
    AnyOfTwo(ParseParentDir, ParseNormal, seg);
  }

  /// A separator-free last segment is the last of the path's segments
  lemma SegmentsOfLast(dir: Bytes, seg: Bytes)
    requires dir == [] || dir[|dir| - 1] == SLASH
    requires seg != [] && forall k | 0 <= k < |seg| :: seg[k] != SLASH
    ensures Segments(dir + seg) == Segments(dir) + [seg]
  {
    SegmentsAppend(dir, seg);
    SegmentsAfterName(seg, []);
    assert seg + [] == seg;
  }

  /// A last segment other than `.` is read whole, as a `..` or a name
  lemma LastSegmentOf(dir: Bytes, seg: Bytes)
    requires dir == [] || dir[|dir| - 1] == SLASH
    requires seg != [] && seg != CURRENT_DIR
    requires forall k | 0 <= k < |seg| :: !IsDisallowed(seg[k])
    ensures LastSegment(dir + seg) == Ok(dir, Classify(seg))
    ensures Classify(seg) != CurDir
  {
    if seg == PARENT_DIR {
      LastSegmentIsParent(dir, seg);
    } else {
      LastSegmentIsName(dir, seg);
    }
  }

  /// The trailing run of non-separators of a stripped path is a whole
  /// segment other than `.`
  lemma SplitShape(stripped: Bytes, dir: Bytes, seg: Bytes)
    requires NulFree(stripped) && stripped != []
    requires stripped[|stripped| - 1] == DOT ==> |stripped| >= 2 && stripped[|stripped| - 2] != SLASH
    requires RTakeUntilByte1(NotSlash, stripped) == Ok(dir, seg)
    ensures stripped == dir + seg && (dir == [] || dir[|dir| - 1] == SLASH)
    ensures seg != [] && seg != CURRENT_DIR && seg[0] != SLASH
    ensures forall k | 0 <= k < |seg| :: !IsDisallowed(seg[k])
  {
    assert forall k | 0 <= k < |seg| :: seg[k] == stripped[|dir| + k];
    assert |seg| == 1 ==> |stripped| == 1 || stripped[|stripped| - 2] == SLASH;
  }

  /// After the stripping, the last segment is a name or `..` and the rest
  /// is the path before it
  lemma LastSegmentSplit(stripped: Bytes) returns (dir: Bytes, seg: Bytes)
    requires NulFree(stripped) && stripped != [] && stripped[|stripped| - 1] != SLASH
    requires stripped[|stripped| - 1] == DOT ==> |stripped| >= 2 && stripped[|stripped| - 2] != SLASH
    ensures LastSegment(stripped) == Ok(dir, Classify(seg)) && Classify(seg) != CurDir
    ensures Segments(stripped) == Segments(dir) + [seg]
    ensures dir == [] ==> stripped[0] != SLASH
    ensures dir != [] ==> dir[0] == stripped[0]
  {
    var split := RTakeUntilByte1(NotSlash, stripped);
    dir := split.rest;
    seg := split.value;
    SplitShape(stripped, dir, seg);
    SegmentsOfLast(dir, seg);
    LastSegmentOf(dir, seg);
  }

  /// What `parse_back` keeps before the last segment: no trailing separator,
  /// and no trailing `.` that stands alone
  lemma StrippedShape(s: Bytes)
    requires NulFree(s)
    ensures var stripped := s[..|s| - TrailingSkip(s)];
            NulFree(stripped) && (stripped != [] ==> stripped[|stripped| - 1] != SLASH) &&
            (stripped != [] && stripped[|stripped| - 1] == DOT ==> |stripped| >= 2 && stripped[|stripped| - 2] != SLASH)
  {
    var stripped := s[..|s| - TrailingSkip(s)];
    assert forall k | 0 <= k < |stripped| :: stripped[k] == s[k];
  }

  /// Past the beginning, `next_back` fails exactly when no component is
  /// left and otherwise takes the last of the later components
  lemma BackLater(s: Bytes)
    requires NulFree(s)
    ensures ParseBack(NotAtBeginning, s).Fail? <==> Later(s) == []
    ensures ParseBack(NotAtBeginning, s).Ok? ==>
              Later(s) == Later(ParseBack(NotAtBeginning, s).rest) + [ParseBack(NotAtBeginning, s).value]
  {
    var stripped := s[..|s| - TrailingSkip(s)];
    StripKeeps(s, 1, false);
    StrippedShape(s);
    if stripped != [] {
      var dir, seg := LastSegmentSplit(stripped);
      AppendLastComponent(Segments(dir), seg, 1, false);
    }
  }

  /// At the beginning, a path of separators and lone `.`s denotes its
  /// first component alone
  lemma OnlyFirstComponent(s: Bytes)
    requires s != [] && NulFree(s) && Later(s) == []
    ensures ParseFront(AtBeginning, s).Ok?
    ensures SpecComponents(s) == [ParseFront(AtBeginning, s).value]
  {
    FrontFirst(s);
    var names := ClassifyAll(Segments(s));
    if s[0] == SLASH {
      DropAllSame(names, 0, true);
    } else {
      var n := FirstMatch(IsSlash, s);
      SegmentsStep(s);
      var x := ClassifyAll(Segments(s[n..]));
      assert names == [Classify(s[..n])] + x;
      assert ([Classify(s[..n])] + x)[1..] == x;
      DropAllSame(x, 2, false);
    }
  }

  /// Appending a segment that is not `.` appends its component
  lemma AppendLastComponent(front: seq<Bytes>, seg: Bytes, index: nat, hasRoot: bool)
    requires Classify(seg) != CurDir
    ensures DropCurDirs(ClassifyAll(front + [seg]), index, hasRoot)
         == DropCurDirs(ClassifyAll(front), index, hasRoot) + [Classify(seg)]
  {
    ClassifyAllAppend(front, [seg]);
    assert ClassifyAll([seg]) == [Classify(seg)];
    DropCurDirsAppend(ClassifyAll(front), [Classify(seg)], index, hasRoot);
    assert DropCurDirs([Classify(seg)], index + |front|, hasRoot) == [Classify(seg)];
  }

  /// A prefix of a path that keeps its first byte, or is empty while the
  /// path has no root, is read with the same root
  lemma SpecOfPrefix(s: Bytes, dir: Bytes)
    requires s != []
    requires dir == [] ==> s[0] != SLASH
    requires dir != [] ==> dir[0] == s[0]
    ensures SpecComponents(dir)
         == (if s[0] == SLASH then [RootDir] else []) + DropCurDirs(ClassifyAll(Segments(dir)), 0, s[0] == SLASH)
  {
  }

  /// The case of `BackAtBeginning` where a segment is left after stripping
  lemma BackAtBeginningSplit(s: Bytes, stripped: Bytes)
    requires s != [] && NulFree(s) && stripped == s[..|s| - TrailingSkip(s)] && stripped != []
    requires stripped[|stripped| - 1] != SLASH && NulFree(stripped)
    requires stripped[|stripped| - 1] == DOT ==> |stripped| >= 2 && stripped[|stripped| - 2] != SLASH
    ensures LastSegment(stripped).Ok?
    ensures SpecComponents(s) == SpecComponents(LastSegment(stripped).rest) + [LastSegment(stripped).value]
  {
    var hasRoot := s[0] == SLASH;
    var dir, seg := LastSegmentSplit(stripped);
    StripKeeps(s, 0, hasRoot);
    AppendLastComponent(Segments(dir), seg, 0, hasRoot);
    assert stripped[0] == s[0];
    SpecOfPrefix(s, dir);
    var root: seq<UnixComponent> := if hasRoot then [RootDir] else [];
    var d := DropCurDirs(ClassifyAll(Segments(dir)), 0, hasRoot);
    assert SpecComponents(s) == root + (d + [Classify(seg)]);
    ConcatAssoc(root, d, [Classify(seg)]);
    assert SpecComponents(dir) == root + d;
    assert LastSegment(stripped).rest == dir && LastSegment(stripped).value == Classify(seg);
  }

  /// At the beginning, `next_back` on a non-empty path always succeeds and
  /// takes the last component of the whole-path reading
  lemma BackAtBeginning(s: Bytes)
    requires s != [] && NulFree(s)
    ensures ParseBack(AtBeginning, s).Ok?
    ensures SpecComponents(s) == SpecComponents(ParseBack(AtBeginning, s).rest) + [ParseBack(AtBeginning, s).value]
  {
    var stripped := s[..|s| - TrailingSkip(s)];
    StrippedShape(s);
    if TrailingSkip(s) == |s| {
      BackAtBeginningWhole(s);
    } else {
      BackAtBeginningSplit(s, stripped);
      assert ParseBack(AtBeginning, s) == LastSegment(stripped);
    }
  }

  /// The case of `BackAtBeginning` where nothing is left after stripping:
  /// the front parser reads the only component
  lemma BackAtBeginningWhole(s: Bytes)
    requires s != [] && NulFree(s) && TrailingSkip(s) == |s|
    ensures ParseBack(AtBeginning, s).Ok?
    ensures SpecComponents(s) == SpecComponents(ParseBack(AtBeginning, s).rest) + [ParseBack(AtBeginning, s).value]
  {
    var c := WholeComponent(s);
    NothingHasNoComponents();
  }

  /// Nothing kept before the trailing separators and lone `.`s: the path is
  /// one component, and `parse_back` reads it and leaves nothing
  lemma WholeComponent(s: Bytes) returns (c: UnixComponent)
    requires s != [] && NulFree(s) && TrailingSkip(s) == |s|
    ensures ParseBack(AtBeginning, s) == Ok([], c) && SpecComponents(s) == [c]
  {
    WholeHasNoLater(s);
    OnlyFirstComponent(s);
    c := ParseFront(AtBeginning, s).value;
    WholeReadsFront(s);
  }

  lemma NothingHasNoComponents()
    ensures SpecComponents([]) == []
  {
  }

  /// Nothing kept before the trailing separators and lone `.`s: no
  /// component past the first
  lemma WholeHasNoLater(s: Bytes)
    requires TrailingSkip(s) == |s|
    ensures Later(s) == []
  {
    StripKeeps(s, 1, false);
    assert s[..|s| - TrailingSkip(s)] == [];
  }

  /// Nothing kept before the trailing separators and lone `.`s: `parse_back`
  /// reads what the front parser reads, and leaves nothing
  lemma WholeReadsFront(s: Bytes)
    requires TrailingSkip(s) == |s| && ParseFront(AtBeginning, s).Ok?
    ensures ParseBack(AtBeginning, s) == Ok([], ParseFront(AtBeginning, s).value)
  {
  }

  /// The components `next_back` yields, in the order it yields them,
  /// until it fails; reading from the back never changes the state
  function BackList(state: State, input: Bytes): seq<UnixComponent>
    decreases |input|
  {
    match ParseBack(state, input)
    case Fail => []
    case Ok(rest, c) => [c] + BackList(state, rest)
  }

  lemma NulFreePrefix(s: Bytes, p: Bytes)
    requires NulFree(s) && StartsWith(s, p)
    ensures NulFree(p)
  {
    assert forall k | 0 <= k < |p| :: p[k] == s[k];
  }

  /// Reading a NUL-free path from the back yields its components in reverse
  lemma {:induction false} BackAgrees(s: Bytes)
    requires NulFree(s)
    ensures BackList(AtBeginning, s) == Reversed(SpecComponents(s))
    decreases |s|
  {
    if s == [] {
      assert SpecComponents(s) == [];
    } else {
      BackAtBeginning(s);
      var r := ParseBack(AtBeginning, s);
      NulFreePrefix(s, r.rest);
      BackAgrees(r.rest);
      ReversedSnoc(SpecComponents(r.rest), r.value);
    }
  }

  /// Past the beginning, reading from the back yields the later components
  /// in reverse
  lemma {:induction false} BackAgreesLater(s: Bytes)
    requires NulFree(s)
    ensures BackList(NotAtBeginning, s) == Reversed(Later(s))
    decreases |s|
  {
    BackLater(s);
    var r := ParseBack(NotAtBeginning, s);
    if r.Ok? {
      NulFreePrefix(s, r.rest);
      BackAgreesLater(r.rest);
      ReversedSnoc(Later(r.rest), r.value);
    }
  }

  /// `next_back` and `next_front` agree: from the back a non-empty NUL-free
  /// path yields the components the front yields, in reverse
  lemma BackMirrorsFront(s: Bytes)
    requires s != [] && NulFree(s)
    ensures BackList(AtBeginning, s) == Reversed(FrontList(AtBeginning, s))
  {
    BackAgrees(s);
    FrontAgrees(s);
  }
}
