/// The whole-path Unix parser: one pass over the input building the full
/// component list, with the small normalisation Unix paths get (repeated
/// separators collapse, `.` is dropped except at the start, a trailing
/// separator is ignored).
module UnixPathParser {
  import opened ByteSeq
  import opened Combinators
  import opened UnixComponentModel
  import opened UnixGrammar

  /// `UnixComponents` as the whole-path parser returns it: the input span it
  /// covers and the components found in it
  datatype ParsedPath = ParsedPath(raw: Bytes, components: seq<UnixComponent>)

  /// `suffixed(file_or_dir_name, zero_or_more(separator))`
  function Name(input: Bytes): (r: PResult<UnixComponent>)
    ensures r.Ok? <==> |input| > 0 && !IsDisallowed(input[0])
    ensures r.Ok? ==> |r.rest| < |input| && IsSuffix(r.rest, input)
    ensures r.Ok? ==> var after := input[SegLen(input)..]; r.rest == after[LeadingSlashes(after)..]
  {
    var r := WithTrailingSeparators(FileOrDirName, input);
    if r.Ok? then
      SuffixTrans(r.rest, FileOrDirName(input).rest, input);
      r
    else r
  }

  lemma NameConsuming()
    ensures Consuming(Name)
  {
  }

  /// `maybe(suffixed(root_dir, zero_or_more(separator)))`: a leading run of
  /// separators read as one root
  function RootPart(input: Bytes): (r: PResult<Option<UnixComponent>>)
    ensures r.Ok?
    ensures r.value.Some? <==> |input| > 0 && input[0] == SLASH
    ensures r.value.Some? ==> r.value.value == RootDir && r.rest == input[LeadingSlashes(input)..]
    ensures r.value.None? ==> r.rest == input
  {
    var r := Maybe(s => WithTrailingSeparators(ParseRootDir, s), input);
    if r.value.Some? then
      assert LeadingSlashes(input) == 1 + LeadingSlashes(input[1..]) by {
        var n := LeadingSlashes(input[1..]);
        assert forall k | 0 <= k < n + 1 :: input[k] == SLASH;
        assert n + 1 < |input| ==> input[n + 1] == input[1..][n];
      }
      r
    else r
  }

  /// The `filter_map` over the enumerated names: `CurDir` survives only as
  /// the name at index 0 of a path without a root
  function DropCurDirs(names: seq<UnixComponent>, index: nat, hasRoot: bool): (r: seq<UnixComponent>)
    ensures forall i | 0 <= i < |r| :: r[i].CurDir? ==> i == 0 && index == 0 && !hasRoot
    ensures forall i | 0 <= i < |r| :: r[i] in names
    ensures |r| <= |names|
    decreases |names|
  {
    if names == [] then []
    else
      var keep := !names[0].CurDir? || (index == 0 && !hasRoot);
      var tail := DropCurDirs(names[1..], index + 1, hasRoot);
      assert forall i | 0 <= i < |tail| :: tail[i] in names;
      if keep then [names[0]] + tail else tail
  }

  /// Dropping `.` never empties a list whose first name is kept, and drops
  /// nothing but `CurDir`s
  lemma {:induction false} DropCurDirsKeeps(names: seq<UnixComponent>, index: nat, hasRoot: bool)
    ensures names != [] && !names[0].CurDir? ==> DropCurDirs(names, index, hasRoot) != []
    ensures names != [] && index == 0 && !hasRoot ==> DropCurDirs(names, index, hasRoot) != []
    ensures forall c | c in names && !c.CurDir? :: c in DropCurDirs(names, index, hasRoot)
    decreases |names|
  {
    if names != [] {
      var keep := !names[0].CurDir? || (index == 0 && !hasRoot);
      var tail := DropCurDirs(names[1..], index + 1, hasRoot);
      DropCurDirsKeeps(names[1..], index + 1, hasRoot);
      assert DropCurDirs(names, index, hasRoot) == if keep then [names[0]] + tail else tail;
      forall c | c in names && !c.CurDir?
        ensures c in DropCurDirs(names, index, hasRoot)
      {
        if c != names[0] {
          assert c in names[1..];
        }
      }
    }
  }

  /// `unix_components`: an optional root, then names, each with the
  /// separators after it; fails when it finds neither.
  function UnixComponentsParse(input: Bytes): (r: PResult<ParsedPath>)
    ensures r.Ok? ==> r.value.raw + r.rest == input
    ensures r.Ok? ==> r.value.components != []
  {
    PartsSuffix(input);
    var root := RootPart(input);
    var names := ZeroOrMore(Name, root.rest);
    var hasRoot := root.value.Some?;
    var components := (if hasRoot then [root.value.value] else []) + DropCurDirs(names.value, 0, hasRoot);
    if components == [] then Fail
    else Ok(names.rest, ParsedPath(Consumed(input, names.rest), components))
  }

  /// The root and the names leave a suffix of the input
  lemma PartsSuffix(input: Bytes)
    ensures Consuming(Name)
    ensures IsSuffix(ZeroOrMore(Name, RootPart(input).rest).rest, input)
  {
    NameConsuming();
    var root := RootPart(input).rest;
    RootRestSuffix(input);
    var names := ZeroOrMore(Name, root).rest;
    SuffixTrans(names, root, input);
  }

  lemma RootRestSuffix(input: Bytes)
    ensures IsSuffix(RootPart(input).rest, input)
  {
    var k := if |input| > 0 && input[0] == SLASH then LeadingSlashes(input) else 0;
    assert RootPart(input).rest == input[k..];
    DropDrop(input, k, 0);
  }

  /// `parse`: `unix_components` that must consume the whole input
  function Parse(input: Bytes): (r: Option<ParsedPath>)
    ensures r.Some? ==> r.value.raw == input
  {
    match UnixComponentsParse(input)
    case Ok(rest, path) => if rest != [] then None else Some(path)
    case Fail => None
  }

  // ---------------------------------------------------------------------------
  // A reference reading of the grammar: split at `/`, classify the pieces

  predicate NulFree(s: Bytes) {
    forall k | 0 <= k < |s| :: s[k] != NUL
  }

  /// Where an input holding a NUL holds its first one
  lemma NulAt(s: Bytes) returns (j: nat)
    requires !NulFree(s)
    ensures j < |s| && s[j] == NUL
  {
    j :| 0 <= j < |s| && s[j] == NUL;
  }

  /// Dropping a NUL-free front part keeps the NUL
  lemma NulSuffix(s: Bytes, m: nat)
    requires m <= |s| && !NulFree(s)
    requires forall i | 0 <= i < m :: s[i] != NUL
    ensures !NulFree(s[m..])
  {
    var j := NulAt(s);
    assert j >= m;
    assert s[m..][j - m] == s[j];
  }

  lemma NulFreeDrop(s: Bytes, k: nat)
    requires NulFree(s) && k <= |s|
    ensures NulFree(s[k..])
  {
    assert forall j | 0 <= j < |s| - k :: s[k..][j] == s[k + j];
  }

  /// The non-empty `/`-separated segments of `s`, left to right
  function Segments(s: Bytes): seq<Bytes>
    decreases |s|
  {
    if s == [] then []
    else if s[0] == SLASH then Segments(s[1..])
    else
      var n := FirstMatch(IsSlash, s);
      [s[..n]] + Segments(s[n..])
  }

  /// A whole segment read as a component
  function Classify(seg: Bytes): UnixComponent {
    ClassifyAt(seg, [])
  }

  function ClassifyAll(segs: seq<Bytes>): (r: seq<UnixComponent>)
    ensures |r| == |segs|
  {
    if segs == [] then [] else [Classify(segs[0])] + ClassifyAll(segs[1..])
  }

  /// The components a NUL-free path denotes: a root when it starts with `/`,
  /// then its segments, with `.` dropped except as the very first segment of
  /// a relative path
  function SpecComponents(input: Bytes): seq<UnixComponent> {
    var hasRoot := |input| > 0 && input[0] == SLASH;
    (if hasRoot then [RootDir] else []) + DropCurDirs(ClassifyAll(Segments(input)), 0, hasRoot)
  }

  /// `Segments` of an input starting with a name
  lemma SegmentsStep(s: Bytes)
    requires s != [] && s[0] != SLASH
    ensures Segments(s) == [s[..FirstMatch(IsSlash, s)]] + Segments(s[FirstMatch(IsSlash, s)..])
  {
  }

  lemma {:induction false} SegmentsSkipSlashes(s: Bytes)
    ensures Segments(s) == Segments(s[LeadingSlashes(s)..])
    decreases |s|
  {
    if |s| > 0 && s[0] == SLASH {
      SegmentsSkipSlashes(s[1..]);
      assert LeadingSlashes(s) == 1 + LeadingSlashes(s[1..]) by {
        var n := LeadingSlashes(s[1..]);
        assert forall k | 0 <= k < n + 1 :: s[k] == SLASH;
        assert n + 1 < |s| ==> s[n + 1] == s[1..][n];
      }
      assert s[1..][LeadingSlashes(s[1..])..] == s[LeadingSlashes(s)..];
    }
  }

  /// On a NUL-free input the first segment ends at the first `/`
  lemma SegLenNulFree(s: Bytes)
    requires NulFree(s)
    ensures SegLen(s) == FirstMatch(IsSlash, s)
  {
    var a := SegLen(s);
    var b := FirstMatch(IsSlash, s);
    assert a < |s| ==> IsSlash(s[a]);
    assert b < |s| ==> IsDisallowed(s[b]);
  }

  /// One name of a NUL-free input: its first segment, classified, with the
  /// separators after it
  lemma NameOnNulFree(s: Bytes)
    requires NulFree(s) && s != [] && s[0] != SLASH
    ensures var n := FirstMatch(IsSlash, s);
            Name(s) == Ok(s[n..][LeadingSlashes(s[n..])..], Classify(s[..n]))
  {
    SegLenNulFree(s);
    var n := SegLen(s);
    assert FileOrDirName(s).rest == s[n..];
  }

  /// The names of a NUL-free input that does not start with `/` are its
  /// classified segments, and they use up the whole input
  lemma {:induction false} NamesOfNulFree(s: Bytes)
    requires Consuming(Name)
    requires NulFree(s) && (s == [] || s[0] != SLASH)
    ensures Many(Name, s) == ([], ClassifyAll(Segments(s)))
    decreases |s|
  {
    if s != [] {
      var seg, next := NulFreeStep(s);
      ManyStep(Name, s);
      NamesOfNulFree(next);
      assert Many(Name, s) == ([], [Classify(seg)] + ClassifyAll(Segments(next)));
      assert ClassifyAll([seg] + Segments(next)) == [Classify(seg)] + ClassifyAll(Segments(next)) by {
        assert ([seg] + Segments(next))[1..] == Segments(next);
      }
    }
  }

  /// One step of `NamesOfNulFree`: the first name is the first segment,
  /// classified, and what follows is NUL-free and starts past the separators
  lemma NulFreeStep(s: Bytes) returns (seg: Bytes, next: Bytes)
    requires NulFree(s) && s != [] && s[0] != SLASH
    ensures Name(s) == Ok(next, Classify(seg))
    ensures |next| < |s| && NulFree(next) && (next == [] || next[0] != SLASH)
    ensures Segments(s) == [seg] + Segments(next)
  {
    var n := FirstMatch(IsSlash, s);
    var after := s[n..];
    next := after[LeadingSlashes(after)..];
    seg := s[..n];
    NameOnNulFree(s);
    SegmentsOnNulFree(s);
    NulFreeAfterName(s);
  }

  /// The segments of an input that does not start with `/`: its first
  /// segment, then those of what follows the separators after it
  lemma SegmentsOnNulFree(s: Bytes)
    requires s != [] && s[0] != SLASH
    ensures var n := FirstMatch(IsSlash, s);
            Segments(s) == [s[..n]] + Segments(s[n..][LeadingSlashes(s[n..])..])
  {
    SegmentsSkipSlashes(s[FirstMatch(IsSlash, s)..]);
    SegmentsStep(s);
  }

  /// What follows the first name of a NUL-free input is NUL-free and
  /// shorter
  lemma NulFreeAfterName(s: Bytes)
    requires NulFree(s) && s != [] && s[0] != SLASH
    ensures var n := FirstMatch(IsSlash, s);
            var next := s[n..][LeadingSlashes(s[n..])..];
            NulFree(next) && |next| < |s|
  {
    var n := FirstMatch(IsSlash, s);
    var after := s[n..];
    assert after[LeadingSlashes(after)..] == s[n + LeadingSlashes(after)..];
    NulFreeDrop(s, n + LeadingSlashes(after));
  }

  /// A name and its separators contain no NUL
  lemma NameSkipsNoNul(s: Bytes)
    requires Name(s).Ok?
    ensures forall j | 0 <= j < |s| - |Name(s).rest| :: s[j] != NUL
  {
    var n, k := NameSplit(s);
    forall j | 0 <= j < n + k
      ensures s[j] != NUL
    {
      if j < n {
        assert !IsDisallowed(s[j]);
      } else {
        assert s[n..][j - n] == SLASH;
      }
    }
  }

  /// What a name reads: its segment, then the separators after it
  lemma NameSplit(s: Bytes) returns (n: nat, k: nat)
    requires Name(s).Ok?
    ensures n == SegLen(s) && k == LeadingSlashes(s[n..])
    ensures n + k == |s| - |Name(s).rest| && Name(s).rest == s[n + k..]
  {
    n := SegLen(s);
    k := LeadingSlashes(s[n..]);
    DropDrop(s, n, k);
  }

  /// Names never consume a NUL: one left in the input stays unparsed
  lemma {:induction false} NamesStopAtNul(s: Bytes)
    requires Consuming(Name)
    requires !NulFree(s)
    ensures Many(Name, s).0 != []
    decreases |s|
  {
    if Name(s).Ok? {
      ManyStep(Name, s);
      NulSurvivesName(s);
      NamesStopAtNul(Name(s).rest);
    }
  }

  /// A name leaves a NUL in the input
  lemma NulSurvivesName(s: Bytes)
    requires Name(s).Ok? && !NulFree(s)
    ensures !NulFree(Name(s).rest)
  {
    var n, k := NameSplit(s);
    NameSkipsNoNul(s);
    NulSuffix(s, n + k);
  }

  /// The names after the root of a non-empty NUL-free input
  lemma NamesAfterRoot(input: Bytes)
    requires input != [] && NulFree(input)
    ensures Consuming(Name)
    ensures ZeroOrMore(Name, RootPart(input).rest) == Ok([], ClassifyAll(Segments(input)))
  {
    NameConsuming();
    var root := RootPart(input);
    SegmentsSkipSlashes(input);
    assert root.rest == input[LeadingSlashes(input)..];
    NulFreeDrop(input, LeadingSlashes(input));
    NamesOfNulFree(root.rest);
  }

  /// What `parse` yields on non-empty NUL-free input
  lemma ParseNulFree(input: Bytes)
    requires input != [] && NulFree(input)
    ensures Parse(input) == Some(ParsedPath(input, SpecComponents(input)))
  {
    NamesAfterRoot(input);
    var hasRoot := RootPart(input).value.Some?;
    var names := ClassifyAll(Segments(input));
    var components := (if hasRoot then [RootDir] else []) + DropCurDirs(names, 0, hasRoot);
    assert components != [] by {
      if !hasRoot {
        DropCurDirsKeeps(names, 0, hasRoot);
      }
    }
    assert Consumed(input, []) == input;
    assert UnixComponentsParse(input) == Ok([], ParsedPath(input, components));
  }

  /// The root part consumes only separators
  lemma NulSurvivesRoot(input: Bytes)
    requires !NulFree(input)
    ensures !NulFree(RootPart(input).rest)
  {
    var k := if |input| > 0 && input[0] == SLASH then LeadingSlashes(input) else 0;
    assert RootPart(input).rest == input[k..];
    NulSuffix(input, k);
  }

  /// A NUL in the input is still there after the names
  lemma NamesLeaveNul(input: Bytes)
    requires !NulFree(input)
    ensures Consuming(Name)
    ensures ZeroOrMore(Name, RootPart(input).rest).rest != []
  {
    NameConsuming();
    NulSurvivesRoot(input);
    NamesStopAtNul(RootPart(input).rest);
  }

  /// `parse` rejects empty input and input holding a NUL
  lemma ParseRejects(input: Bytes)
    requires input == [] || !NulFree(input)
    ensures Parse(input).None?
  {
    ParseRest(input);
    if input != [] {
      NamesLeaveNul(input);
    }
  }

  /// `unix_components` leaves what the names leave, and finds nothing in
  /// empty input
  lemma ParseRest(input: Bytes)
    ensures Consuming(Name)
    ensures var r := UnixComponentsParse(input);
            r.Ok? ==> r.rest == ZeroOrMore(Name, RootPart(input).rest).rest
    ensures input == [] ==> UnixComponentsParse(input).Fail?
  {
    NameConsuming();
    if input == [] {
      assert RootPart(input).rest == [];
      assert ZeroOrMore(Name, []).value == [];
    }
  }

  /// `parse` succeeds exactly on non-empty NUL-free input, and then yields
  /// the reference components over the whole input. In particular it fails
  /// on empty input and on `abc\0def`.
  lemma ParseMatchesSegments(input: Bytes)
    ensures Parse(input).Some? <==> input != [] && NulFree(input)
    ensures Parse(input).Some? ==> Parse(input).value == ParsedPath(input, SpecComponents(input))
  {
    if input != [] && NulFree(input) {
      ParseNulFree(input);
    } else {
      ParseRejects(input);
    }
  }
}

module UnixPathParserProperties {
  import opened ByteSeq
  import opened Combinators
  import opened UnixComponentModel
  import opened UnixGrammar
  import opened UnixPathParser

  lemma {:induction false} ClassifyAllNoRoot(segs: seq<Bytes>)
    ensures forall c | c in ClassifyAll(segs) :: !c.RootDir?
    decreases |segs|
  {
    if segs != [] {
      ClassifyAllNoRoot(segs[1..]);
    }
  }

  /// A leading run of separators gives exactly one `RootDir`, placed first,
  /// and no other component is a root
  lemma ParseRootFirst(input: Bytes)
    requires Parse(input).Some?
    ensures var cs := Parse(input).value.components;
            (cs[0] == RootDir <==> input[0] == SLASH) && forall i | 0 < i < |cs| :: cs[i] != RootDir
  {
    ParseMatchesSegments(input);
    var hasRoot := input[0] == SLASH;
    var names := ClassifyAll(Segments(input));
    ClassifyAllNoRoot(Segments(input));
    var kept := DropCurDirs(names, 0, hasRoot);
    assert forall i | 0 <= i < |kept| :: kept[i] != RootDir;
  }

  lemma SpecCurDirOnlyFirst(input: Bytes)
    ensures var cs := SpecComponents(input);
            forall i | 0 <= i < |cs| :: cs[i] == CurDir ==> i == 0 && (input == [] || input[0] != SLASH)
  {
    var hasRoot := |input| > 0 && input[0] == SLASH;
    var kept := DropCurDirs(ClassifyAll(Segments(input)), 0, hasRoot);
    if hasRoot {
      var cs := [RootDir] + kept;
      assert forall i | 1 <= i < |cs| :: cs[i] == kept[i - 1];
    }
  }

  /// `CurDir` survives only as the first component of a path without a root
  lemma ParseCurDirOnlyFirst(input: Bytes)
    requires Parse(input).Some?
    ensures var cs := Parse(input).value.components;
            forall i | 0 <= i < |cs| :: cs[i] == CurDir ==> i == 0 && input[0] != SLASH
  {
    ParseMatchesSegments(input);
    SpecCurDirOnlyFirst(input);
  }

  /// `k` separators
  function Slashes(k: nat): (s: Bytes)
    ensures |s| == k
  {
    if k == 0 then [] else [SLASH] + Slashes(k - 1)
  }

  /// Separators before the rest do not add segments
  lemma {:induction false} SegmentsAfterSlashes(k: nat, rest: Bytes)
    ensures Segments(Slashes(k) + rest) == Segments(rest)
    decreases k
  {
    if k > 0 {
      var s := Slashes(k) + rest;
      assert Slashes(k) == [SLASH] + Slashes(k - 1);
      assert s[0] == SLASH;
      assert s[1..] == Slashes(k - 1) + rest;
      assert Segments(s) == Segments(s[1..]);
      SegmentsAfterSlashes(k - 1, rest);
    } else {
      assert Slashes(k) + rest == rest;
    }
  }

  /// A separator-free name followed by the end or a separator is one segment
  lemma SegmentsAfterName(name: Bytes, rest: Bytes)
    requires name != [] && forall i | 0 <= i < |name| :: name[i] != SLASH
    requires rest == [] || rest[0] == SLASH
    ensures Segments(name + rest) == [name] + Segments(rest)
  {
    var s := name + rest;
    var n := FirstMatch(IsSlash, s);
    assert s[|name|..] == rest;
    assert n == |name| by {
      assert forall i | 0 <= i < |name| :: s[i] == name[i];
      assert |name| < |s| ==> s[|name|] == rest[0];
    }
    assert s[..n] == name;
  }

  /// The segments of `/////a///.//..///`
  lemma CollapseExampleSegments(input: Bytes)
    requires input == Slashes(5) + [97] + Slashes(3) + [DOT] + Slashes(2) + [DOT, DOT] + Slashes(3)
    ensures Segments(input) == [[97], [DOT], [DOT, DOT]]
  {
    var t3 := [DOT, DOT] + Slashes(3);
    var t2 := Slashes(2) + t3;
    var t1 := [DOT] + t2;
    var t0 := Slashes(3) + t1;
    var u := [97] + t0;
    assert input == Slashes(5) + u;
    SegmentsAfterSlashes(3, []);
    assert Slashes(3) + [] == Slashes(3);
    SegmentsAfterName([DOT, DOT], Slashes(3));
    SegmentsAfterSlashes(2, t3);
    SegmentsAfterName([DOT], t2);
    SegmentsAfterSlashes(3, t1);
    SegmentsAfterName([97], t0);
    SegmentsAfterSlashes(5, u);
  }

  /// The components the reference reading gives `/////a///.//..///`
  lemma CollapseExampleComponents(input: Bytes)
    requires input == Slashes(5) + [97] + Slashes(3) + [DOT] + Slashes(2) + [DOT, DOT] + Slashes(3)
    ensures SpecComponents(input) == [RootDir, Normal([97]), ParentDir]
  {
    CollapseExampleSegments(input);
    assert input[0] == SLASH;
    var segs := Segments(input);
    assert segs[1..] == [[DOT], [DOT, DOT]] && segs[1..][1..] == [[DOT, DOT]] && segs[1..][1..][1..] == [];
    assert Classify([97]) == Normal([97]) && Classify([DOT]) == CurDir && Classify([DOT, DOT]) == ParentDir;
    assert ClassifyAll(segs[1..][1..]) == [ParentDir];
    assert ClassifyAll(segs[1..]) == [CurDir, ParentDir];
    var names := ClassifyAll(segs);
    assert names == [Normal([97]), CurDir, ParentDir];
    assert names[1..] == [CurDir, ParentDir] && names[1..][1..] == [ParentDir] && names[1..][1..][1..] == [];
    assert DropCurDirs(names[1..][1..], 2, true) == [ParentDir];
    assert DropCurDirs(names[1..], 1, true) == [ParentDir];
  }

  /// `/////a///.//..///` gives the root, `a` and `..`: separators collapse,
  /// `.` is dropped and `..` is kept as it is
  lemma ParseCollapsesSeparators(input: Bytes)
    requires input == Slashes(5) + [97] + Slashes(3) + [DOT] + Slashes(2) + [DOT, DOT] + Slashes(3)
    ensures Parse(input) == Some(ParsedPath(input, [RootDir, Normal([97]), ParentDir]))
  {
    assert NulFree(input) by {
      assert forall i | 0 <= i < |input| :: input[i] == SLASH || input[i] == DOT || input[i] == 97;
    }
    ParseMatchesSegments(input);
    CollapseExampleComponents(input);
  }

  /// `abc\0def` is rejected: the NUL stops the names before the end
  lemma ParseRejectsNul()
    ensures Parse([97, 98, 99, NUL, 100, 101, 102]).None?
  {
    var input: Bytes := [97, 98, 99, NUL, 100, 101, 102];
    assert input[3] == NUL;
    ParseMatchesSegments(input);
  }

  /// `.` and `..` are special only as whole names: `.hello`, `..hello` and
  /// `...` are normal names
  lemma DotsInsideNamesAreNormal()
    ensures FileOrDirName([DOT, 104, 105]) == Ok([], Normal([DOT, 104, 105]))
    ensures FileOrDirName([DOT, DOT, 104, 105]) == Ok([], Normal([DOT, DOT, 104, 105]))
    ensures FileOrDirName([DOT, DOT, DOT]) == Ok([], Normal([DOT, DOT, DOT]))
  {
    var a: Bytes := [DOT, 104, 105];
    var b: Bytes := [DOT, DOT, 104, 105];
    var c: Bytes := [DOT, DOT, DOT];
    assert SegLen(a) == 3 && a[..3] == a && a[3..] == [];
    assert SegLen(b) == 4 && b[..4] == b && b[4..] == [];
    assert SegLen(c) == 3 && c[..3] == c && c[3..] == [];
  }
}
