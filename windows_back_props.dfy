/// Reading a Windows path from the back: at the beginning `next_back` keeps
/// the leading prefix apart and yields the components of the whole-path
/// reading, last first, so that iterating from either end lists the same
/// components.
module WindowsBackProperties {
  import opened ByteSeq
  import opened Combinators
  import opened WindowsComponentModel
  import opened WindowsGrammar
  import opened WindowsStepGrammar
  import opened WindowsIncremental
  import opened WindowsIncrementalProperties

  // ---------------------------------------------------------------------------
  // The names of a concatenation

  /// What one segment adds to the names: nothing when it is empty or, when
  /// normalising, a lone `.`
  function KeptName(normalize: bool, seg: Bytes): seq<WindowsComponent> {
    if Kept(normalize, seg) then [ClassifyIn(normalize, seg)] else []
  }

  /// The names of a segment and what follows the separator that ends it
  lemma NamesStep(normalize: bool, s: Bytes)
    requires SegLenIn(normalize, s) < |s|
    ensures Names(normalize, s) == KeptName(normalize, s[..SegLenIn(normalize, s)]) + Names(normalize, s[SegLenIn(normalize, s) + 1..])
  {
    var m := SegLenIn(normalize, s);
    SegmentsStep(normalize, s);
    NamesOfCons(normalize, s[..m], SegmentsIn(normalize, s[m + 1..]));
  }

  /// The names of one separator-free segment
  lemma NamesWhole(normalize: bool, s: Bytes)
    requires SegLenIn(normalize, s) == |s|
    ensures Names(normalize, s) == KeptName(normalize, s)
  {
    SegmentsStep(normalize, s);
    NamesOfSingle(normalize, s);
  }

  /// Bytes appended after a separator, or after a separator-free start that
  /// they open with a separator, leave the first segment as it was
  lemma SegLenAppend(normalize: bool, x: Bytes, y: Bytes)
    requires SegLenIn(normalize, x) < |x| || y == [] || IsSepIn(normalize, y[0])
    ensures SegLenIn(normalize, x + y) == SegLenIn(normalize, x)
  {
    var s := x + y;
    var m := SegLenIn(normalize, x);
    assert forall k | 0 <= k < |x| :: s[k] == x[k];
    if normalize {
      FirstMatchUnique(IsSep, s, m);
    } else {
      FirstMatchUnique(IsBackslash, s, m);
    }
  }

  /// Names of a concatenation split at a separator are the names of the
  /// two parts
  lemma {:induction false} NamesAppend(normalize: bool, x: Bytes, y: Bytes)
    requires x == [] || y == [] || IsSepIn(normalize, x[|x| - 1]) || IsSepIn(normalize, y[0])
    ensures Names(normalize, x + y) == Names(normalize, x) + Names(normalize, y)
    decreases |x|, 1
  {
    NamesOfEmpty(normalize);
    if x == [] {
      assert x + y == y;
    } else if y == [] {
      assert x + y == x;
    } else if SegLenIn(normalize, x) < |x| {
      NamesAppendSplit(normalize, x, y);
    } else {
      NamesAppendWhole(normalize, x, y);
    }
  }

  /// The case of `NamesAppend` where `x` is one whole segment
  lemma NamesAppendWhole(normalize: bool, x: Bytes, y: Bytes)
    requires x != [] && y != [] && SegLenIn(normalize, x) == |x|
    requires IsSepIn(normalize, x[|x| - 1]) || IsSepIn(normalize, y[0])
    ensures Names(normalize, x + y) == Names(normalize, x) + Names(normalize, y)
  {
    var s := x + y;
    SegLenAppend(normalize, x, y);
    NamesStep(normalize, s);
    NamesWhole(normalize, x);
    assert s[..|x|] == x && s[|x| + 1..] == y[1..];
    NamesAtSep(normalize, y);
  }

  /// The case of `NamesAppend` where `x` holds a separator
  lemma {:induction false} NamesAppendSplit(normalize: bool, x: Bytes, y: Bytes)
    requires SegLenIn(normalize, x) < |x|
    requires y == [] || IsSepIn(normalize, x[|x| - 1]) || IsSepIn(normalize, y[0])
    ensures Names(normalize, x + y) == Names(normalize, x) + Names(normalize, y)
    decreases |x|, 0
  {
    var first, x' := SplitFirstName(normalize, x, y);
    NamesAppend(normalize, x', y);
    ConcatAssoc(first, Names(normalize, x'), Names(normalize, y));
  }

  /// The first segment of `x`, when `x` holds a separator, gives the first
  /// names of both `x` and `x + y`; `x'` is what follows that separator
  lemma SplitFirstName(normalize: bool, x: Bytes, y: Bytes) returns (first: seq<WindowsComponent>, x': Bytes)
    requires SegLenIn(normalize, x) < |x|
    requires y == [] || IsSepIn(normalize, x[|x| - 1]) || IsSepIn(normalize, y[0])
    ensures |x'| < |x|
    ensures x' == [] || y == [] || IsSepIn(normalize, x'[|x'| - 1]) || IsSepIn(normalize, y[0])
    ensures Names(normalize, x + y) == first + Names(normalize, x' + y)
    ensures Names(normalize, x) == first + Names(normalize, x')
  {
    var s := x + y;
    var m := SegLenIn(normalize, x);
    x' := x[m + 1..];
    first := KeptName(normalize, x[..m]);
    assert x' != [] ==> x'[|x'| - 1] == x[|x| - 1];
    assert Names(normalize, s) == first + Names(normalize, x' + y) by {
      SegLenAppend(normalize, x, y);
      NamesStep(normalize, s);
      assert s[..m] == x[..m];
      assert s[m + 1..] == x' + y;
    }
    assert Names(normalize, x) == first + Names(normalize, x') by {
      NamesStep(normalize, x);
    }
  }

  // ---------------------------------------------------------------------------
  // What follows the prefix

  /// What `AfterPrefixSpec` reads before the names: a root for a leading
  /// separator, and when normalising `.` for a lone `.` in first place
  function Lead(normalize: bool, s: Bytes): seq<WindowsComponent> {
    if s == [] then []
    else if IsSepIn(normalize, s[0]) then [RootDir]
    else if normalize && CurDirIn(true, s).Ok? then [CurDir]
    else []
  }

  /// The reading after a prefix is its lead, then its names
  lemma AfterPrefixAsNames(normalize: bool, s: Bytes)
    ensures AfterPrefixSpec(normalize, s) == Lead(normalize, s) + Names(normalize, s)
  {
    NamesOfEmpty(normalize);
    if s == [] {
    } else if IsSepIn(normalize, s[0]) {
      NamesAtSep(normalize, s);
    } else if normalize && CurDirIn(true, s).Ok? {
      assert SegLenIn(normalize, s) == 1 && s[..1] == CURRENT_DIR;
      if |s| > 1 {
        NamesStep(normalize, s);
        NamesAtSep(normalize, s[1..]);
        assert s[1..][1..] == s[2..];
      } else {
        NamesWhole(normalize, s);
      }
    }
  }

  /// Separators and, when normalising, `.`s that come first or after a
  /// separator: the bytes `parse_back` skips from the end
  predicate Skippable(normalize: bool, t: Bytes) {
    forall k | 0 <= k < |t| :: IsSepIn(normalize, t[k]) || (normalize && t[k] == DOT && (k == 0 || IsSep(t[k - 1])))
  }

  lemma SkippableTail(normalize: bool, t: Bytes, i: nat)
    requires Skippable(normalize, t) && i <= |t|
    ensures Skippable(normalize, t[i..])
  {
    var u := t[i..];
    forall k | 0 <= k < |u|
      ensures IsSepIn(normalize, u[k]) || (normalize && u[k] == DOT && (k == 0 || IsSep(u[k - 1])))
    {
      assert u[k] == t[i + k];
      if k > 0 {
        assert u[k - 1] == t[i + k - 1];
      }
    }
  }

  /// Skippable bytes hold no name
  lemma {:induction false} SkippableNames(normalize: bool, t: Bytes)
    requires Skippable(normalize, t)
    ensures Names(normalize, t) == []
    decreases |t|
  {
    NamesOfEmpty(normalize);
    if t == [] {
    } else if IsSepIn(normalize, t[0]) {
      NamesAtSep(normalize, t);
      SkippableTail(normalize, t, 1);
      SkippableNames(normalize, t[1..]);
    } else {
      assert |t| > 1 ==> IsSepIn(normalize, t[1]);
      assert SegLenIn(normalize, t) == 1 && t[..1] == CURRENT_DIR;
      if |t| > 1 {
        NamesStep(normalize, t);
        SkippableTail(normalize, t, 2);
        SkippableNames(normalize, t[2..]);
      } else {
        NamesWhole(normalize, t);
      }
    }
  }

  /// What `Stripped` drops is skippable and, when something is kept before
  /// it, starts with a separator
  lemma StrippedTail(normalize: bool, s: Bytes)
    ensures var t := Stripped(normalize, s);
            Skippable(normalize, s[|t|..]) && (t != [] && |t| < |s| ==> IsSepIn(normalize, s[|t|]))
  {
    var t := Stripped(normalize, s);
    var u := s[|t|..];
    forall k | 0 <= k < |u|
      ensures IsSepIn(normalize, u[k]) || (normalize && u[k] == DOT && (k == 0 || IsSep(u[k - 1])))
    {
      assert u[k] == s[|t| + k];
      if k > 0 {
        assert u[k - 1] == s[|t| + k - 1];
      }
    }
    if t != [] && |t| < |s| {
      assert s[|t| - 1] == t[|t| - 1];
    }
  }

  /// Stripping the trailing separators and lone `.`s changes no name
  lemma StripNames(normalize: bool, s: Bytes)
    ensures Names(normalize, s) == Names(normalize, Stripped(normalize, s))
  {
    var t := Stripped(normalize, s);
    var u := s[|t|..];
    assert s == t + u;
    StrippedTail(normalize, s);
    NamesAppend(normalize, t, u);
    SkippableNames(normalize, u);
    assert Names(normalize, t) + [] == Names(normalize, t);
  }

  /// Only skippable bytes after the prefix: the root or `.` they start with
  lemma BodyWhole(normalize: bool, body: Bytes)
    requires body != [] && Skippable(normalize, body)
    ensures AfterPrefixSpec(normalize, body) == [AfterPrefixChoice(normalize, body).value]
  {
    AfterPrefixAsNames(normalize, body);
    SkippableNames(normalize, body);
    assert !IsSepIn(normalize, body[0]) ==> normalize && body[0] == DOT;
    assert !IsSepIn(normalize, body[0]) && |body| > 1 ==> IsSepIn(normalize, body[1]);
  }

  /// The last segment of a stripped path, with what comes before it
  lemma LastSegmentSplit(normalize: bool, s: Bytes) returns (dir: Bytes, seg: Bytes)
    requires Stripped(normalize, s) != []
    ensures Stripped(normalize, s) == dir + seg
    ensures LastSegment(normalize, Stripped(normalize, s)) == Ok(dir, ClassifyIn(normalize, seg))
    ensures dir == [] || IsSepIn(normalize, dir[|dir| - 1])
    ensures Kept(normalize, seg) && forall k | 0 <= k < |seg| :: !IsSepIn(normalize, seg[k])
  {
    var t := Stripped(normalize, s);
    var n := LastSegLen(normalize, t);
    dir := t[..|t| - n];
    seg := t[|t| - n..];
    assert t == dir + seg;
    assert forall k | 0 <= k < |seg| :: !IsSepIn(normalize, seg[k]) by {
      assert forall k | 0 <= k < |seg| :: seg[k] == t[|t| - n + k];
    }
    assert dir == [] || IsSepIn(normalize, dir[|dir| - 1]) by {
      assert dir != [] ==> dir[|dir| - 1] == t[|t| - n - 1];
    }
    assert Kept(normalize, seg) by {
      StrippedNotLoneDot(normalize, s);
    }
  }

  /// What `Stripped` keeps does not end with a `.` that stands alone
  lemma StrippedNotLoneDot(normalize: bool, s: Bytes)
    requires Stripped(normalize, s) != []
    ensures var t := Stripped(normalize, s);
            normalize && t[|t| - 1] == DOT ==> |t| >= 2 && !IsSep(t[|t| - 2])
  {
    var t := Stripped(normalize, s);
    var m := TrailingSkip(normalize, s);
    assert t[|t| - 1] == s[|s| - m - 1];
    assert |t| >= 2 ==> t[|t| - 2] == s[|s| - m - 2];
  }

  /// The names of a path ending with a separator-free kept segment
  lemma NamesSnoc(normalize: bool, dir: Bytes, seg: Bytes)
    requires dir == [] || IsSepIn(normalize, dir[|dir| - 1])
    requires Kept(normalize, seg) && forall k | 0 <= k < |seg| :: !IsSepIn(normalize, seg[k])
    ensures Names(normalize, dir + seg) == Names(normalize, dir) + [ClassifyIn(normalize, seg)]
  {
    NamesAppend(normalize, dir, seg);
    FirstMatchUnique(if normalize then IsSep else IsBackslash, seg, |seg|);
    NamesWhole(normalize, seg);
  }

  /// A start of a path that keeps its first byte and, if that opens a
  /// segment, the whole of it, has the same lead
  lemma LeadOfStart(normalize: bool, s: Bytes, dir: Bytes, seg: Bytes)
    requires StartsWith(s, dir + seg) && seg != [] && !IsSepIn(normalize, seg[0])
    requires dir == [] || IsSepIn(normalize, dir[|dir| - 1])
    requires Kept(normalize, seg) && (|seg| > 1 ==> !IsSepIn(normalize, seg[1]))
    ensures Lead(normalize, s) == Lead(normalize, dir)
  {
    assert s[..|dir + seg|] == dir + seg;
    if dir == [] {
      assert s[0] == seg[0];
      assert |seg| > 1 ==> s[1] == seg[1];
      assert normalize && |seg| == 1 ==> seg != CURRENT_DIR;
    } else {
      assert s[0] == dir[0];
      assert |dir| > 1 ==> s[1] == dir[1];
    }
  }

  /// `BodyBack` takes the last component of the reading after the prefix
  lemma BodyBackSpec(normalize: bool, body: Bytes)
    requires body != []
    ensures BodyBack(normalize, body).Ok?
    ensures AfterPrefixSpec(normalize, body)
         == AfterPrefixSpec(normalize, BodyBack(normalize, body).rest) + [BodyBack(normalize, body).value]
  {
    var t := Stripped(normalize, body);
    NamesOfEmpty(normalize);
    if t == [] {
      StrippedTail(normalize, body);
      assert body[|t|..] == body;
      BodyWhole(normalize, body);
    } else {
      var dir, seg := LastSegmentSplit(normalize, body);
      var c := ClassifyIn(normalize, seg);
      AfterPrefixAsNames(normalize, body);
      AfterPrefixAsNames(normalize, dir);
      StripNames(normalize, body);
      NamesSnoc(normalize, dir, seg);
      assert |seg| > 1 ==> !IsSepIn(normalize, seg[1]);
      LeadOfStart(normalize, body, dir, seg);
      ConcatAssoc(Lead(normalize, dir), Names(normalize, dir), [c]);
    }
  }

  // ---------------------------------------------------------------------------
  // The prefix of what is left

  /// A path without a prefix has none in any start of it: the UNC form
  /// depends on the first three bytes and the disk form on the first two
  lemma NoPrefixStart(s: Bytes, t: Bytes)
    requires StepPrefixComponent(s).Fail? && StartsWith(s, t)
    ensures StepPrefixComponent(t).Fail?
  {
    StepPrefixOk(s);
    StepPrefixOk(t);
    assert forall i | 0 <= i < |t| :: t[i] == s[i];
  }

  /// A start of a start of `x` is a start of `x`
  lemma StartBytes(x: Bytes, y: Bytes, l: nat)
    requires StartsWith(x, y) && l <= |y|
    ensures y[..l] == x[..l]
    ensures forall i | 0 <= i < l :: y[i] == x[i]
  {
    assert y[..l] == x[..|y|][..l];
  }

  /// A run of non-separators that a start of the input holds whole, or up to
  /// the start's end, has the same length there
  lemma SegLenStable(normalize: bool, u: Bytes, w: Bytes)
    requires StartsWith(u, w) && SegLenIn(normalize, u) <= |w|
    ensures SegLenIn(normalize, w) == SegLenIn(normalize, u)
  {
    var k := SegLenIn(normalize, u);
    assert forall i | 0 <= i < |w| :: w[i] == u[i];
    if normalize {
      FirstMatchUnique(IsSep, w, k);
    } else {
      FirstMatchUnique(IsBackslash, w, k);
    }
  }

  /// A share reads the same from a start of its input that holds what it
  /// reads
  lemma ShareStable(normalize: bool, x: Bytes, y: Bytes, rest: Bytes, share: Bytes, c: nat)
    requires x == [] || IsSepIn(normalize, x[0])
    requires ShareIn(normalize, x) == Ok(rest, share) && c == |x| - |rest|
    requires StartsWith(x, y) && c <= |y|
    ensures ShareIn(normalize, y) == Ok(y[c..], share)
  {
    if x != [] {
      var l := SegLenIn(normalize, x[1..]);
      assert c == 1 + l;
      assert y != [] && IsSepIn(normalize, y[0]) by {
        assert y[0] == x[0];
      }
      assert SegLenIn(normalize, y[1..]) == l by {
        DropStarts(x, y, 1);
        SegLenStable(normalize, x[1..], y[1..]);
      }
      assert y[1..][..l] == x[1..][..l] by {
        DropStarts(x, y, 1);
        StartBytes(x[1..], y[1..], l);
      }
      DropInTwo(y, 1, l);
      assert y[1..][l..] == y[c..];
      assert ShareIn(normalize, y).value == share;
      assert ShareIn(normalize, y).rest == y[c..];
    }
  }

  /// Dropping `a` bytes and then `b` more drops `a + b` (the slice fact
  /// alone, without the suffix fact `DropDrop` adds)
  lemma DropInTwo(y: Bytes, a: nat, b: nat)
    requires a + b <= |y|
    ensures y[a..][b..] == y[a + b..]
  {
  }

  /// The start of `u` dropped by `k` is a start of `u` dropped by `k`
  lemma DropStarts(u: Bytes, w: Bytes, k: nat)
    requires StartsWith(u, w) && k <= |w|
    ensures StartsWith(u[k..], w[k..])
  {
    assert u[k..][..|w| - k] == u[..|w|][k..];
  }

  /// The share after a server reads the same from a start of the input
  /// that holds it
  lemma ShareAfterServer(normalize: bool, x: Bytes, y: Bytes, l: nat, rest: Bytes, share: Bytes, c: nat)
    requires l <= |x| && (l < |x| ==> IsSepIn(normalize, x[l]))
    requires ShareIn(normalize, x[l..]) == Ok(rest, share) && c == |x| - |rest|
    requires StartsWith(x, y) && c <= |y|
    ensures l <= c
    ensures ShareIn(normalize, y[l..]) == Ok(y[c..], share)
  {
    var x2, y2 := x[l..], y[l..];
    assert l <= c by {
      assert IsSuffix(rest, x2);
    }
    DropStarts(x, y, l);
    ShareStable(normalize, x2, y2, rest, share, c - l);
    DropInTwo(y, l, c - l);
    assert y2[c - l..] == y[c..];
    assert ShareIn(normalize, y2) == Ok(y[c..], share);
  }

  /// A server, then the share after it
  lemma ServerShareShape(normalize: bool, z: Bytes)
    requires z != [] && !IsSepIn(normalize, z[0])
    ensures var l := SegLenIn(normalize, z);
            ServerShareIn(normalize, z) == Ok(ShareIn(normalize, z[l..]).rest, (z[..l], ShareIn(normalize, z[l..]).value))
  {
  }

  /// A server and share read the same from a start of their input that
  /// holds what they read
  lemma ServerShareStable(normalize: bool, x: Bytes, y: Bytes, rest: Bytes, v: (Bytes, Bytes), c: nat)
    requires ServerShareIn(normalize, x) == Ok(rest, v) && c == |x| - |rest|
    requires StartsWith(x, y) && c <= |y|
    ensures ServerShareIn(normalize, y) == Ok(y[c..], v)
  {
    var l := SegLenIn(normalize, x);
    ServerShareShape(normalize, x);
    ServerShareParts(normalize, x, y, l, rest, v.1, c);
  }

  /// `ServerShareStable` with the reading of `x` taken apart
  lemma ServerShareParts(normalize: bool, x: Bytes, y: Bytes, l: nat, rest: Bytes, share: Bytes, c: nat)
    requires x != [] && !IsSepIn(normalize, x[0]) && l == SegLenIn(normalize, x)
    requires ShareIn(normalize, x[l..]) == Ok(rest, share) && c == |x| - |rest|
    requires StartsWith(x, y) && c <= |y|
    ensures ServerShareIn(normalize, y) == Ok(y[c..], (x[..l], share))
  {
    ShareAfterServer(normalize, x, y, l, rest, share, c);
    assert y != [] && !IsSepIn(normalize, y[0]) && SegLenIn(normalize, y) == l by {
      assert y[0] == x[0];
      SegLenStable(normalize, x, y);
    }
    StartBytes(x, y, l);
    ServerShareOf(normalize, y, l, y[c..], x[..l], share);
  }

  /// A server of length `l`, then a share that leaves `rest`
  lemma ServerShareOf(normalize: bool, z: Bytes, l: nat, rest: Bytes, server: Bytes, share: Bytes)
    requires z != [] && !IsSepIn(normalize, z[0]) && SegLenIn(normalize, z) == l
    requires z[..l] == server && ShareIn(normalize, z[l..]) == Ok(rest, share)
    ensures ServerShareIn(normalize, z) == Ok(rest, (server, share))
  {
    ServerShareShape(normalize, z);
  }

  /// A server and share read after the first `k` bytes read the same from
  /// a start of the input that holds what they read
  lemma ServerShareSlice(normalize: bool, u: Bytes, w: Bytes, k: nat, rest: Bytes, v: (Bytes, Bytes), c: nat)
    requires StartsWith(u, w) && k <= |w|
    requires ServerShareIn(normalize, u[k..]) == Ok(rest, v) && c == |u| - |rest| && c <= |w|
    ensures ServerShareIn(normalize, w[k..]) == Ok(w[c..], v)
  {
    var x, y := u[k..], w[k..];
    assert k <= c by {
      assert IsSuffix(rest, x);
    }
    DropStarts(u, w, k);
    ServerShareStable(normalize, x, y, rest, v, c - k);
    DropInTwo(w, k, c - k);
    assert y[c - k..] == w[c..];
    assert ServerShareIn(normalize, y) == Ok(w[c..], v);
    assert ServerShareIn(normalize, w[k..]) == Ok(w[c..], v);
  }

  /// A prefix form that reads a start of the input also reads the input;
  /// for `\\?\name` this needs the two forms before it to fail there
  lemma LongerReads(u: Bytes, w: Bytes)
    requires StartsWith(u, w)
    ensures StepVerbatimUNC(w).Ok? ==> StepVerbatimUNC(u).Ok?
    ensures PrefixVerbatimDisk(w).Ok? ==> PrefixVerbatimDisk(u).Ok?
    ensures StepVerbatim(w).Ok? && PrefixVerbatimDisk(u).Fail? && StepVerbatimUNC(u).Fail? ==> StepVerbatim(u).Ok?
    ensures StepDeviceNS(w).Ok? ==> StepDeviceNS(u).Ok?
    ensures StepUNC(w).Ok? ==> StepUNC(u).Ok?
  {
    assert forall i | 0 <= i < |w| :: w[i] == u[i];
    assert |w| >= 4 ==> w[..4] == u[..4];
  }

  /// What `\\?\UNC\server\share` reads, taken apart
  lemma VerbatimUNCRead(u: Bytes) returns (rest: Bytes, server: Bytes, share: Bytes)
    requires StepVerbatimUNC(u).Ok?
    ensures VerbatimAt(u) && |u| > 8 && u[4] == UNC_TAG[0] && u[5] == UNC_TAG[1] && u[6] == UNC_TAG[2]
    ensures IsSepIn(AnySepAt(u), u[7]) && !IsSepIn(AnySepAt(u), u[8])
    ensures ServerShareIn(AnySepAt(u), u[8..]) == Ok(rest, (server, share))
    ensures StepVerbatimUNC(u) == Ok(rest, VerbatimUNC(server, share))
  {
    var ss := ServerShareIn(AnySepAt(u), u[8..]);
    assert ss.Ok? by {
      assert u[8..][0] == u[8];
    }
    rest, server, share := ss.rest, ss.value.0, ss.value.1;
  }

  /// `VerbatimUNCStableAs` with the reading of `u` taken apart
  lemma VerbatimUNCParts(u: Bytes, w: Bytes, m: bool, rest: Bytes, server: Bytes, share: Bytes)
    requires VerbatimAt(u) && |u| > 8 && u[4] == UNC_TAG[0] && u[5] == UNC_TAG[1] && u[6] == UNC_TAG[2]
    requires m == AnySepAt(u) && IsSepIn(m, u[7]) && !IsSepIn(m, u[8])
    requires ServerShareIn(m, u[8..]) == Ok(rest, (server, share))
    requires StartsWith(u, w) && |u| - |rest| <= |w|
    ensures StepVerbatimUNC(w) == Ok(w[|u| - |rest|..], VerbatimUNC(server, share))
  {
    var c := |u| - |rest|;
    assert |w| > 8 && w[..4] == u[..4] && w[4] == u[4] && w[5] == u[5] && w[6] == u[6] && w[7] == u[7] && w[8] == u[8] by {
      StartBytes(u, w, 9);
      StartBytes(u, w, 4);
    }
    ServerShareSlice(m, u, w, 8, rest, (server, share), c);
    VerbatimUNCOf(w, m, w[c..], server, share);
  }

  /// `\\?\UNC\` then a server and share that leave `rest`
  lemma VerbatimUNCOf(z: Bytes, m: bool, rest: Bytes, server: Bytes, share: Bytes)
    requires VerbatimAt(z) && |z| > 8 && z[4] == UNC_TAG[0] && z[5] == UNC_TAG[1] && z[6] == UNC_TAG[2]
    requires z[..4] == VERBATIM_START ==> !m
    requires z[..4] != VERBATIM_START ==> m
    requires IsSepIn(m, z[7]) && !IsSepIn(m, z[8])
    requires ServerShareIn(m, z[8..]) == Ok(rest, (server, share))
    ensures StepVerbatimUNC(z) == Ok(rest, VerbatimUNC(server, share))
  {
    assert AnySepAt(z) == m;
  }

  /// `\\?\C:` reads the same from a start of the input that holds it
  lemma VerbatimDiskStable(u: Bytes, w: Bytes)
    requires PrefixVerbatimDisk(u).Ok? && StartsWith(u, w) && |u| - |PrefixVerbatimDisk(u).rest| <= |w|
    ensures PrefixVerbatimDisk(w) == Ok(w[|u| - |PrefixVerbatimDisk(u).rest|..], PrefixVerbatimDisk(u).value)
  {
    assert |u| - |PrefixVerbatimDisk(u).rest| == 6;
    assert w[..6] == u[..6];
  }

  /// What `\\?\name` reads, taken apart
  lemma VerbatimRead(u: Bytes) returns (n: nat)
    requires StepVerbatim(u).Ok?
    ensures VerbatimAt(u) && n == SegLenIn(AnySepAt(u), u[4..]) && 4 + n <= |u|
    ensures StepVerbatim(u) == Ok(u[4 + n..], Verbatim(u[4..][..n]))
  {
    n := SegLenIn(AnySepAt(u), u[4..]);
    DropInTwo(u, 4, n);
  }

  /// `VerbatimStableAs` with the reading of `u` taken apart
  lemma VerbatimParts(u: Bytes, w: Bytes, m: bool, n: nat)
    requires VerbatimAt(u) && m == AnySepAt(u) && n == SegLenIn(m, u[4..])
    requires StartsWith(u, w) && 4 + n <= |w| && |w| > 4
    requires PrefixVerbatimDisk(w).Fail? && StepVerbatimUNC(w).Fail?
    ensures StepVerbatim(w) == Ok(w[4 + n..], Verbatim(u[4..][..n]))
  {
    assert VerbatimAt(w) && AnySepAt(w) == m by {
      StartBytes(u, w, 4);
    }
    DropStarts(u, w, 4);
    SegLenStable(m, u[4..], w[4..]);
    StartBytes(u[4..], w[4..], n);
    DropInTwo(w, 4, n);
    assert StepVerbatim(w).value == Verbatim(u[4..][..n]);
    assert StepVerbatim(w).rest == w[4 + n..];
  }

  /// `\\.\device` reads the same from a start of the input that holds it
  lemma DeviceStable(u: Bytes, w: Bytes)
    requires StepDeviceNS(u).Ok? && StartsWith(u, w)
    requires |u| - |StepDeviceNS(u).rest| <= |w|
    ensures StepDeviceNS(w) == Ok(w[|u| - |StepDeviceNS(u).rest|..], StepDeviceNS(u).value)
  {
    var n := DeviceRead(u);
    DeviceParts(u, w, n);
  }

  /// What `\\.\device` reads, taken apart
  lemma DeviceRead(u: Bytes) returns (n: nat)
    requires StepDeviceNS(u).Ok?
    ensures DeviceAt(u) && |u| > 4 && !IsSep(u[4]) && n == SegLenIn(true, u[4..]) && 4 + n <= |u|
    ensures StepDeviceNS(u) == Ok(u[4 + n..], DeviceNS(u[4..][..n]))
  {
    n := SegLenIn(true, u[4..]);
    DropInTwo(u, 4, n);
  }

  /// `DeviceStable` with the reading of `u` taken apart
  lemma DeviceParts(u: Bytes, w: Bytes, n: nat)
    requires DeviceAt(u) && |u| > 4 && !IsSep(u[4]) && n == SegLenIn(true, u[4..])
    requires StartsWith(u, w) && 4 + n <= |w|
    ensures StepDeviceNS(w) == Ok(w[4 + n..], DeviceNS(u[4..][..n]))
  {
    assert DeviceAt(w) && |w| > 4 && !IsSep(w[4]) by {
      StartBytes(u, w, 5);
    }
    DropStarts(u, w, 4);
    SegLenStable(true, u[4..], w[4..]);
    StartBytes(u[4..], w[4..], n);
    DropInTwo(w, 4, n);
    assert StepDeviceNS(w).value == DeviceNS(u[4..][..n]);
    assert StepDeviceNS(w).rest == w[4 + n..];
  }

  /// What `\\server\share` reads, taken apart
  lemma UNCRead(u: Bytes) returns (rest: Bytes, server: Bytes, share: Bytes)
    requires StepUNC(u).Ok?
    ensures |u| > 2 && IsSep(u[0]) && IsSep(u[1]) && !IsSep(u[2])
    ensures ServerShareIn(true, u[2..]) == Ok(rest, (server, share))
    ensures StepUNC(u) == Ok(rest, UNC(server, share))
  {
    var ss := ServerShareIn(true, u[2..]);
    assert ss.Ok? by {
      assert u[2..][0] == u[2];
    }
    rest, server, share := ss.rest, ss.value.0, ss.value.1;
  }

  /// `UNCStableAs` with the reading of `u` taken apart
  lemma UNCParts(u: Bytes, w: Bytes, rest: Bytes, server: Bytes, share: Bytes)
    requires |u| > 2 && IsSep(u[0]) && IsSep(u[1]) && !IsSep(u[2])
    requires ServerShareIn(true, u[2..]) == Ok(rest, (server, share))
    requires StartsWith(u, w) && |u| - |rest| <= |w|
    ensures StepUNC(w) == Ok(w[|u| - |rest|..], UNC(server, share))
  {
    var c := |u| - |rest|;
    assert |w| > 2 && IsSep(w[0]) && IsSep(w[1]) && !IsSep(w[2]) by {
      StartBytes(u, w, 3);
    }
    ServerShareSlice(true, u, w, 2, rest, (server, share), c);
    UNCOf(w, w[c..], server, share);
  }

  /// `\\` then a server and share that leave `rest`
  lemma UNCOf(z: Bytes, rest: Bytes, server: Bytes, share: Bytes)
    requires |z| > 2 && IsSep(z[0]) && IsSep(z[1]) && !IsSep(z[2])
    requires ServerShareIn(true, z[2..]) == Ok(rest, (server, share))
    ensures StepUNC(z) == Ok(rest, UNC(server, share))
  {
  }

  /// `C:` reads the same from a start of the input that holds it
  lemma DiskStable(u: Bytes, w: Bytes)
    requires PrefixDisk(u).Ok? && StartsWith(u, w) && |u| - |PrefixDisk(u).rest| <= |w|
    ensures PrefixDisk(w) == Ok(w[|u| - |PrefixDisk(u).rest|..], PrefixDisk(u).value)
  {
    assert |u| - |PrefixDisk(u).rest| == 2;
    assert w[..2] == u[..2];
  }

  /// The prefix of the input reads the same from any start of the input
  /// that holds it, except `\\?\` with a blank name and nothing after it
  lemma PrefixStable(u: Bytes, w: Bytes)
    requires StepPrefix(u).Ok? && StartsWith(u, w)
    requires |u| - |StepPrefix(u).rest| <= |w|
    requires StepPrefix(u).value.Verbatim? ==> |w| > 4
    ensures StepPrefix(w) == Ok(w[|u| - |StepPrefix(u).rest|..], StepPrefix(u).value)
  {
    var r := StepPrefix(u);
    var k := PrefixWhich(u);
    FormStable(u, w, r, k);
  }

  /// `PrefixStable` for the form numbered `k`
  lemma FormStable(u: Bytes, w: Bytes, r: PResult<WindowsPrefix>, k: nat)
    requires r == StepPrefix(u) && r.Ok? && StartsWith(u, w) && |u| - |r.rest| <= |w|
    requires r.value.Verbatim? ==> |w| > 4
    requires k < 6
    requires k == 0 ==> r == StepVerbatimUNC(u)
    requires k == 1 ==> StepVerbatimUNC(u).Fail? && r == PrefixVerbatimDisk(u)
    requires k == 2 ==> StepVerbatimUNC(u).Fail? && PrefixVerbatimDisk(u).Fail? && r == StepVerbatim(u)
    requires k >= 3 ==> StepVerbatimUNC(u).Fail? && PrefixVerbatimDisk(u).Fail? && StepVerbatim(u).Fail?
    requires k == 3 ==> r == StepDeviceNS(u)
    requires k == 4 ==> StepDeviceNS(u).Fail? && r == StepUNC(u)
    requires k == 5 ==> StepDeviceNS(u).Fail? && StepUNC(u).Fail? && r == PrefixDisk(u)
    ensures StepPrefix(w) == Ok(w[|u| - |r.rest|..], r.value)
  {
    if k < 3 {
      VerbatimFormStable(u, w, r, k);
    } else {
      PlainFormStable(u, w, r, k);
    }
  }

  /// `PrefixStable` for the three verbatim forms
  lemma VerbatimFormStable(u: Bytes, w: Bytes, r: PResult<WindowsPrefix>, k: nat)
    requires r == StepPrefix(u) && r.Ok? && StartsWith(u, w) && |u| - |r.rest| <= |w|
    requires r.value.Verbatim? ==> |w| > 4
    requires k < 3
    requires k == 0 ==> r == StepVerbatimUNC(u)
    requires k == 1 ==> StepVerbatimUNC(u).Fail? && r == PrefixVerbatimDisk(u)
    requires k == 2 ==> StepVerbatimUNC(u).Fail? && PrefixVerbatimDisk(u).Fail? && r == StepVerbatim(u)
    ensures StepPrefix(w) == Ok(w[|u| - |r.rest|..], r.value)
  {
    if k == 0 {
      VerbatimUNCWins(u, w, r);
    } else if k == 1 {
      VerbatimDiskWins(u, w, r);
    } else {
      VerbatimWins(u, w, r);
    }
  }

  /// `PrefixStable` for the device, UNC and disk forms
  lemma PlainFormStable(u: Bytes, w: Bytes, r: PResult<WindowsPrefix>, k: nat)
    requires r == StepPrefix(u) && r.Ok? && StartsWith(u, w) && |u| - |r.rest| <= |w|
    requires 3 <= k < 6
    requires StepVerbatimUNC(u).Fail? && PrefixVerbatimDisk(u).Fail? && StepVerbatim(u).Fail?
    requires k == 3 ==> r == StepDeviceNS(u)
    requires k == 4 ==> StepDeviceNS(u).Fail? && r == StepUNC(u)
    requires k == 5 ==> StepDeviceNS(u).Fail? && StepUNC(u).Fail? && r == PrefixDisk(u)
    ensures StepPrefix(w) == Ok(w[|u| - |r.rest|..], r.value)
  {
    if k == 3 {
      DeviceWins(u, w, r);
    } else if k == 4 {
      UNCWins(u, w, r);
    } else {
      DiskWins(u, w, r);
    }
  }

  /// Which of the six forms reads the prefix of the input, counting from
  /// the most specific
  lemma PrefixWhich(u: Bytes) returns (k: nat)
    requires StepPrefix(u).Ok?
    ensures k < 6
    ensures k == 0 ==> StepPrefix(u) == StepVerbatimUNC(u)
    ensures k == 1 ==> StepVerbatimUNC(u).Fail? && StepPrefix(u) == PrefixVerbatimDisk(u)
    ensures k == 2 ==> StepVerbatimUNC(u).Fail? && PrefixVerbatimDisk(u).Fail? && StepPrefix(u) == StepVerbatim(u)
    ensures k >= 3 ==> StepVerbatimUNC(u).Fail? && PrefixVerbatimDisk(u).Fail? && StepVerbatim(u).Fail?
    ensures k == 3 ==> StepPrefix(u) == StepDeviceNS(u)
    ensures k == 4 ==> StepDeviceNS(u).Fail? && StepPrefix(u) == StepUNC(u)
    ensures k == 5 ==> StepDeviceNS(u).Fail? && StepUNC(u).Fail? && StepPrefix(u) == PrefixDisk(u)
  {
    PrefixForms(u);
    k := if StepVerbatimUNC(u).Ok? then 0 else if PrefixVerbatimDisk(u).Ok? then 1 else if StepVerbatim(u).Ok? then 2
         else if StepDeviceNS(u).Ok? then 3 else if StepUNC(u).Ok? then 4 else 5;
  }

  /// `prefix` on the six forms spelled out, most specific first
  lemma PrefixForms(input: Bytes)
    ensures StepPrefix(input)
         == if StepVerbatimUNC(input).Ok? then StepVerbatimUNC(input)
            else if PrefixVerbatimDisk(input).Ok? then PrefixVerbatimDisk(input)
            else if StepVerbatim(input).Ok? then StepVerbatim(input)
            else if StepDeviceNS(input).Ok? then StepDeviceNS(input)
            else if StepUNC(input).Ok? then StepUNC(input)
            else PrefixDisk(input)
  {
    AnyOfSix(StepVerbatimUNC, PrefixVerbatimDisk, StepVerbatim, StepDeviceNS, StepUNC, PrefixDisk, input);
  }

  /// `\\?\UNC\server\share` wins on a start of the input when it wins on the input
  lemma VerbatimUNCWins(u: Bytes, w: Bytes, r: PResult<WindowsPrefix>)
    requires r == StepVerbatimUNC(u) && r.Ok? && StartsWith(u, w) && |u| - |r.rest| <= |w|
    ensures StepPrefix(w) == Ok(w[|u| - |r.rest|..], r.value)
  {
    VerbatimUNCStableAs(u, w, r);
    VerbatimUNCFirst(u, w, w[|u| - |r.rest|..], r.value);
  }

  /// `\\?\UNC\server\share`, read as `r` from the input, reads the same
  /// from a start of the input that holds it
  lemma VerbatimUNCStableAs(u: Bytes, w: Bytes, r: PResult<WindowsPrefix>)
    requires r == StepVerbatimUNC(u) && r.Ok? && StartsWith(u, w) && |u| - |r.rest| <= |w|
    ensures StepVerbatimUNC(w) == Ok(w[|u| - |r.rest|..], r.value)
  {
    var rest, server, share := VerbatimUNCRead(u);
    VerbatimUNCParts(u, w, AnySepAt(u), rest, server, share);
  }

  /// `\\?\UNC\server\share` read on a start of the input, where it wins on the input, is
  /// what the prefix grammar reads there
  lemma VerbatimUNCFirst(u: Bytes, w: Bytes, rest: Bytes, value: WindowsPrefix)
    requires StartsWith(u, w) && StepVerbatimUNC(w) == Ok(rest, value)
    ensures StepPrefix(w) == Ok(rest, value)
  {
    PrefixForms(w);
  }

  /// `\\?\C:` wins on a start of the input when it wins on the input
  lemma VerbatimDiskWins(u: Bytes, w: Bytes, r: PResult<WindowsPrefix>)
    requires StepVerbatimUNC(u).Fail?
    requires r == PrefixVerbatimDisk(u) && r.Ok? && StartsWith(u, w) && |u| - |r.rest| <= |w|
    ensures StepPrefix(w) == Ok(w[|u| - |r.rest|..], r.value)
  {
    VerbatimDiskStableAs(u, w, r);
    VerbatimDiskFirst(u, w, w[|u| - |r.rest|..], r.value);
  }

  /// `VerbatimDiskStable` with `r` for the reading of `u`
  lemma VerbatimDiskStableAs(u: Bytes, w: Bytes, r: PResult<WindowsPrefix>)
    requires r == PrefixVerbatimDisk(u) && r.Ok? && StartsWith(u, w) && |u| - |r.rest| <= |w|
    ensures PrefixVerbatimDisk(w) == Ok(w[|u| - |r.rest|..], r.value)
  {
    VerbatimDiskStable(u, w);
    ReadingOf(PrefixVerbatimDisk(w), PrefixVerbatimDisk(u), r, u, w);
  }

  /// `\\?\C:` read on a start of the input, where it wins on the input, is
  /// what the prefix grammar reads there
  lemma VerbatimDiskFirst(u: Bytes, w: Bytes, rest: Bytes, value: WindowsPrefix)
    requires StepVerbatimUNC(u).Fail?
    requires StartsWith(u, w) && PrefixVerbatimDisk(w) == Ok(rest, value)
    ensures StepPrefix(w) == Ok(rest, value)
  {
    LongerReads(u, w);
    PrefixForms(w);
  }

  /// `\\?\name` wins on a start of the input when it wins on the input
  lemma VerbatimWins(u: Bytes, w: Bytes, r: PResult<WindowsPrefix>)
    requires StepVerbatimUNC(u).Fail? && PrefixVerbatimDisk(u).Fail?
    requires r == StepVerbatim(u) && r.Ok? && StartsWith(u, w) && |u| - |r.rest| <= |w| && |w| > 4
    ensures StepPrefix(w) == Ok(w[|u| - |r.rest|..], r.value)
  {
    VerbatimStableAs(u, w, r);
    VerbatimFirst(u, w, w[|u| - |r.rest|..], r.value);
  }

  /// `\\?\name`, read as `r` from the input, reads the same from a start
  /// of the input that holds it and is longer than `\\?\`
  lemma VerbatimStableAs(u: Bytes, w: Bytes, r: PResult<WindowsPrefix>)
    requires r == StepVerbatim(u) && r.Ok? && StartsWith(u, w) && |u| - |r.rest| <= |w| && |w| > 4
    ensures StepVerbatim(w) == Ok(w[|u| - |r.rest|..], r.value)
  {
    var n := VerbatimRead(u);
    assert PrefixVerbatimDisk(w).Fail? && StepVerbatimUNC(w).Fail? by {
      LongerReads(u, w);
    }
    VerbatimParts(u, w, AnySepAt(u), n);
  }

  /// `\\?\name` read on a start of the input, where it wins on the input, is
  /// what the prefix grammar reads there
  lemma VerbatimFirst(u: Bytes, w: Bytes, rest: Bytes, value: WindowsPrefix)
    requires StepVerbatimUNC(u).Fail? && PrefixVerbatimDisk(u).Fail?
    requires StartsWith(u, w) && StepVerbatim(w) == Ok(rest, value)
    ensures StepPrefix(w) == Ok(rest, value)
  {
    LongerReads(u, w);
    PrefixForms(w);
  }

  /// `\\.\device` wins on a start of the input when it wins on the input
  lemma DeviceWins(u: Bytes, w: Bytes, r: PResult<WindowsPrefix>)
    requires StepVerbatimUNC(u).Fail? && PrefixVerbatimDisk(u).Fail? && StepVerbatim(u).Fail?
    requires r == StepDeviceNS(u) && r.Ok? && StartsWith(u, w) && |u| - |r.rest| <= |w|
    ensures StepPrefix(w) == Ok(w[|u| - |r.rest|..], r.value)
  {
    DeviceStableAs(u, w, r);
    DeviceFirst(u, w, w[|u| - |r.rest|..], r.value);
  }

  /// `DeviceStable` with `r` for the reading of `u`
  lemma DeviceStableAs(u: Bytes, w: Bytes, r: PResult<WindowsPrefix>)
    requires r == StepDeviceNS(u) && r.Ok? && StartsWith(u, w) && |u| - |r.rest| <= |w|
    ensures StepDeviceNS(w) == Ok(w[|u| - |r.rest|..], r.value)
  {
    DeviceStable(u, w);
    ReadingOf(StepDeviceNS(w), StepDeviceNS(u), r, u, w);
  }

  /// `\\.\device` read on a start of the input, where it wins on the input, is
  /// what the prefix grammar reads there
  lemma DeviceFirst(u: Bytes, w: Bytes, rest: Bytes, value: WindowsPrefix)
    requires StepVerbatimUNC(u).Fail? && PrefixVerbatimDisk(u).Fail? && StepVerbatim(u).Fail?
    requires StartsWith(u, w) && StepDeviceNS(w) == Ok(rest, value)
    ensures StepPrefix(w) == Ok(rest, value)
  {
    LongerReads(u, w);
    PrefixForms(w);
  }

  /// `\\server\share` wins on a start of the input when it wins on the input
  lemma UNCWins(u: Bytes, w: Bytes, r: PResult<WindowsPrefix>)
    requires StepVerbatimUNC(u).Fail? && PrefixVerbatimDisk(u).Fail? && StepVerbatim(u).Fail? && StepDeviceNS(u).Fail?
    requires r == StepUNC(u) && r.Ok? && StartsWith(u, w) && |u| - |r.rest| <= |w|
    ensures StepPrefix(w) == Ok(w[|u| - |r.rest|..], r.value)
  {
    UNCStableAs(u, w, r);
    UNCFirst(u, w, w[|u| - |r.rest|..], r.value);
  }

  /// `\\server\share`, read as `r` from the input, reads the same from a
  /// start of the input that holds it
  lemma UNCStableAs(u: Bytes, w: Bytes, r: PResult<WindowsPrefix>)
    requires r == StepUNC(u) && r.Ok? && StartsWith(u, w) && |u| - |r.rest| <= |w|
    ensures StepUNC(w) == Ok(w[|u| - |r.rest|..], r.value)
  {
    var rest, server, share := UNCRead(u);
    UNCParts(u, w, rest, server, share);
  }

  /// `\\server\share` read on a start of the input, where it wins on the input, is
  /// what the prefix grammar reads there
  lemma UNCFirst(u: Bytes, w: Bytes, rest: Bytes, value: WindowsPrefix)
    requires StepVerbatimUNC(u).Fail? && PrefixVerbatimDisk(u).Fail? && StepVerbatim(u).Fail? && StepDeviceNS(u).Fail?
    requires StartsWith(u, w) && StepUNC(w) == Ok(rest, value)
    ensures StepPrefix(w) == Ok(rest, value)
  {
    LongerReads(u, w);
    PrefixForms(w);
  }

  /// `C:` wins on a start of the input when it wins on the input
  lemma DiskWins(u: Bytes, w: Bytes, r: PResult<WindowsPrefix>)
    requires StepVerbatimUNC(u).Fail? && PrefixVerbatimDisk(u).Fail? && StepVerbatim(u).Fail? && StepDeviceNS(u).Fail? && StepUNC(u).Fail?
    requires r == PrefixDisk(u) && r.Ok? && StartsWith(u, w) && |u| - |r.rest| <= |w|
    ensures StepPrefix(w) == Ok(w[|u| - |r.rest|..], r.value)
  {
    DiskStableAs(u, w, r);
    DiskFirst(u, w, w[|u| - |r.rest|..], r.value);
  }

  /// `DiskStable` with `r` for the reading of `u`
  lemma DiskStableAs(u: Bytes, w: Bytes, r: PResult<WindowsPrefix>)
    requires r == PrefixDisk(u) && r.Ok? && StartsWith(u, w) && |u| - |r.rest| <= |w|
    ensures PrefixDisk(w) == Ok(w[|u| - |r.rest|..], r.value)
  {
    DiskStable(u, w);
    ReadingOf(PrefixDisk(w), PrefixDisk(u), r, u, w);
  }

  /// `C:` read on a start of the input, where it wins on the input, is
  /// what the prefix grammar reads there
  lemma DiskFirst(u: Bytes, w: Bytes, rest: Bytes, value: WindowsPrefix)
    requires StepVerbatimUNC(u).Fail? && PrefixVerbatimDisk(u).Fail? && StepVerbatim(u).Fail? && StepDeviceNS(u).Fail? && StepUNC(u).Fail?
    requires StartsWith(u, w) && PrefixDisk(w) == Ok(rest, value)
    ensures StepPrefix(w) == Ok(rest, value)
  {
    LongerReads(u, w);
    PrefixForms(w);
  }

  /// What a start `w` of `u` reads, restated with `r` for the reading of `u`
  lemma ReadingOf(fw: PResult<WindowsPrefix>, fu: PResult<WindowsPrefix>, r: PResult<WindowsPrefix>, u: Bytes, w: Bytes)
    requires r == fu && fu.Ok? && |fu.rest| <= |u| && |u| - |fu.rest| <= |w|
    requires fw == Ok(w[|u| - |fu.rest|..], fu.value)
    ensures fw == Ok(w[|u| - |r.rest|..], r.value)
  {
  }

  /// No `\\?\` prefix with a blank name: what is left of such a path
  /// after its last component is `\\?\` alone, which reads as a UNC prefix
  predicate NoBlankVerbatim(s: Bytes) {
    StepPrefixComponent(s).Fail? || StepPrefixComponent(s).value.parsed != Verbatim([])
  }

  /// The prefix of a path, followed by any start of what follows it, is
  /// read as the same prefix
  lemma PrefixComponentStable(s: Bytes, t: Bytes)
    requires StepPrefixComponent(s).Ok? && StartsWith(StepPrefixComponent(s).rest, t)
    requires t == [] ==> StepPrefixComponent(s).value.parsed != Verbatim([])
    ensures StepPrefixComponent(StepPrefixComponent(s).value.raw + t) == Ok(t, StepPrefixComponent(s).value)
  {
    var pc := StepPrefixComponent(s).value;
    var body := StepPrefixComponent(s).rest;
    var w := pc.raw + t;
    assert s == pc.raw + body;
    assert StartsWith(s, w) by {
      assert s[..|w|] == pc.raw + body[..|t|];
    }
    if pc.parsed.Verbatim? {
      var m := AnySepAt(s);
      assert |pc.raw| == 4 + |pc.parsed.name| by {
        AnyOfSix(StepVerbatimUNC, PrefixVerbatimDisk, StepVerbatim, StepDeviceNS, StepUNC, PrefixDisk, s);
      }
    }
    PrefixStable(s, w);
    assert w[|pc.raw|..] == t;
    assert w[..|w| - |t|] == pc.raw;
  }

  // ---------------------------------------------------------------------------
  // Reading the whole path from the back

  /// A path without a prefix has no components
  lemma EmptyHasNoComponents(normalize: bool)
    ensures SpecFront(normalize, []) == []
  {
    StepPrefixOk([]);
  }

  /// At the beginning, `next_back` on a non-empty path always succeeds and
  /// takes the last component of the whole-path reading, leaving a path
  /// whose prefix, if any, is the same
  lemma BackAtBeginning(normalize: bool, s: Bytes)
    requires s != [] && NoBlankVerbatim(s)
    ensures ParseBack(AtBeginning, normalize, s).Ok?
    ensures SpecFront(normalize, s)
         == SpecFront(normalize, ParseBack(AtBeginning, normalize, s).rest) + [ParseBack(AtBeginning, normalize, s).value]
    ensures NoBlankVerbatim(ParseBack(AtBeginning, normalize, s).rest)
  {
    match StepPrefixComponent(s)
    case Fail =>
      var b := BodyBack(normalize, s);
      BodyBackSpec(normalize, s);
      NoPrefixStart(s, b.rest);
    case Ok(body, pc) =>
      if body == [] {
        EmptyHasNoComponents(normalize);
      } else {
        var b := BodyBack(normalize, body);
        BodyBackSpec(normalize, body);
        PrefixComponentStable(s, b.rest);
        assert SpecFront(normalize, pc.raw + b.rest) == [Prefix(pc)] + AfterPrefixSpec(normalize, b.rest);
        ConcatAssoc([Prefix(pc)], AfterPrefixSpec(normalize, b.rest), [b.value]);
      }
  }

  /// The components `next_back` yields, in the order it yields them,
  /// until it fails; reading from the back never changes the state
  function BackList(state: State, normalize: bool, input: Bytes): seq<WindowsComponent>
    decreases |input|
  {
    ParseBackShape(state, normalize, input);
    match ParseBack(state, normalize, input)
    case Fail => []
    case Ok(rest, c) => [c] + BackList(state, normalize, rest)
  }

  /// Reading a path from the back yields its components in reverse, unless
  /// it starts with a verbatim prefix with an empty name
  lemma {:induction false} BackAgrees(normalize: bool, s: Bytes)
    requires NoBlankVerbatim(s)
    ensures BackList(AtBeginning, normalize, s) == Reversed(SpecFront(normalize, s))
    decreases |s|
  {
    if s == [] {
      EmptyHasNoComponents(normalize);
    } else {
      BackAtBeginning(normalize, s);
      ParseBackShape(AtBeginning, normalize, s);
      var r := ParseBack(AtBeginning, normalize, s);
      BackAgrees(normalize, r.rest);
      ReversedSnoc(SpecFront(normalize, r.rest), r.value);
    }
  }

  /// `next_back` lists, in reverse, what `next` lists from the front
  lemma BackMirrorsFront(normalize: bool, s: Bytes)
    requires NoBlankVerbatim(s)
    ensures BackList(AtBeginning, normalize, s) == Reversed(FrontList(AtBeginning, normalize, s))
  {
    BackAgrees(normalize, s);
    FrontAgrees(normalize, s);
  }

  /// Why `BackAgrees` leaves out a verbatim prefix with an empty name: once
  /// everything after it has been read from the back, the `\\?\` left over
  /// reads on its own as a UNC prefix with server `?` and no share
  lemma BlankVerbatimRereads(normalize: bool, s: Bytes)
    requires StepPrefixComponent(s).Ok? && StepPrefixComponent(s).value.parsed == Verbatim([])
    ensures var raw := StepPrefixComponent(s).value.raw;
            |raw| == 4 && ParseBack(AtBeginning, normalize, raw) == Ok([], Prefix(PrefixComponent(raw, UNC([QUESTION], []))))
  {
    var raw := BlankVerbatimRaw(s);
    BareVerbatimReadsUNC(raw);
    assert raw[..|raw| - 0] == raw;
  }

  /// A verbatim prefix with an empty name consumed exactly `\\?\`
  lemma BlankVerbatimRaw(s: Bytes) returns (raw: Bytes)
    requires StepPrefixComponent(s).Ok? && StepPrefixComponent(s).value.parsed == Verbatim([])
    ensures raw == StepPrefixComponent(s).value.raw && |raw| == 4 && VerbatimAt(raw)
  {
    raw := StepPrefixComponent(s).value.raw;
    PrefixForms(s);
    assert StepVerbatim(s).Ok? by {
      AnyOfSix(StepVerbatimUNC, PrefixVerbatimDisk, StepVerbatim, StepDeviceNS, StepUNC, PrefixDisk, s);
    }
    assert |raw| == 4 && raw == s[..4];
  }

  /// `\\?\` alone reads as a UNC prefix with server `?` and no share
  lemma BareVerbatimReadsUNC(raw: Bytes)
    requires |raw| == 4 && VerbatimAt(raw)
    ensures StepPrefix(raw) == Ok([], UNC([QUESTION], []))
  {
    PrefixForms(raw);
    assert StepVerbatim(raw).Fail?;
    assert StepDeviceNS(raw).Fail?;
    BareServer(raw[2..]);
  }

  /// `?` followed by a separator reads as a server with no share
  lemma BareServer(t: Bytes)
    requires |t| == 2 && t[0] == QUESTION && IsSep(t[1])
    ensures ServerShareIn(true, t) == Ok([], ([QUESTION], []))
  {
    assert SegLenIn(true, t) == 1;
    assert t[..1] == [QUESTION];
    var u := t[1..];
    assert SegLenIn(true, u[1..]) == 0;
    assert ShareIn(true, u) == Ok([], []);
  }
}
