/// The whole-path Windows parser: an optional prefix, an optional root, then
/// names, with the small normalisation Windows paths get (separators of
/// either kind collapse, `.` is dropped except at the start of a path
/// without a root, a trailing separator is ignored).
module WindowsPathParser {
  import opened ByteSeq
  import opened Combinators
  import opened WindowsComponentModel
  import opened WindowsGrammar
  import opened WindowsPrefixProperties

  /// `WindowsComponents` as the whole-path parser returns it: the input span
  /// it covers and the components found in it
  datatype ParsedPath = ParsedPath(raw: Bytes, components: seq<WindowsComponent>)

  /// `prefix_component`: a prefix together with the raw bytes it was read
  /// from, which are its text up to the spelling of the separators
  function PrefixComponentParse(input: Bytes): (r: PResult<PrefixComponent>)
    ensures r.Ok? <==> ParsePrefix(input).Ok?
    ensures r.Ok? ==> r.rest == ParsePrefix(input).rest && r.value.parsed == ParsePrefix(input).value
    ensures r.Ok? ==> r.value.raw + r.rest == input && |r.value.raw| == PrefixLen(r.value.parsed)
    ensures r.Ok? ==> WellFormed(r.value.parsed) && WithBackslashes(r.value.raw) == Render(r.value.parsed)
  {
    match ParsePrefix(input)
    case Fail => Fail
    case Ok(rest, p) =>
      PrefixReadsWritten(input);
      Ok(rest, PrefixComponent(Consumed(input, rest), p))
  }

  /// `maybe(suffixed(root_dir, zero_or_more(separator)))`: a leading run of
  /// separators read as one root
  function RootPart(input: Bytes): (r: PResult<Option<WindowsComponent>>)
    ensures r.Ok?
    ensures r.value.Some? <==> |input| > 0 && IsSep(input[0])
    ensures r.value.Some? ==> r.value.value == RootDir && r.rest == input[LeadingSeps(input)..]
    ensures r.value.None? ==> r.rest == input
  {
    var r := Maybe(s => WithTrailingSeparators(ParseRootDir, s), input);
    if r.value.Some? then
      LeadingSepsStep(input);
      assert input[1..][LeadingSeps(input[1..])..] == input[LeadingSeps(input)..];
      r
    else r
  }

  /// `suffixed(file_or_dir_name, zero_or_more(separator))`
  function Name(input: Bytes): (r: PResult<WindowsComponent>)
    ensures r.Ok? <==> |input| > 0 && !IsDisallowed(input[0])
    ensures r.Ok? ==> |r.rest| < |input| && IsSuffix(r.rest, input)
    ensures r.Ok? ==> var after := input[SegLen(input)..]; r.rest == after[LeadingSeps(after)..]
  {
    var r := WithTrailingSeparators(FileOrDirName, input);
    if r.Ok? then
      SuffixTrans(r.rest, FileOrDirName(input).rest, input);
      r
    else r
  }

  lemma NameConsuming()
    ensures Consuming(Name)
  {
  }

  /// The `filter_map` over the enumerated names: `CurDir` survives only as
  /// the name at index 0 of a path without a root
  function DropCurDirs(names: seq<WindowsComponent>, index: nat, hasRoot: bool): (r: seq<WindowsComponent>)
    ensures forall i | 0 <= i < |r| :: r[i].CurDir? ==> i == 0 && index == 0 && !hasRoot
    ensures forall i | 0 <= i < |r| :: r[i] in names
    ensures |r| <= |names|
    decreases |names|
  {
    if names == [] then []
    else
      var keep := !names[0].CurDir? || (index == 0 && !hasRoot);
      var tail := DropCurDirs(names[1..], index + 1, hasRoot);
      assert forall i | 0 <= i < |tail| :: tail[i] in names;
      if keep then [names[0]] + tail else tail
  }

  /// Dropping `.` keeps every other name, and keeps the first name of a
  /// path without a root
  lemma {:induction false} DropCurDirsKeeps(names: seq<WindowsComponent>, index: nat, hasRoot: bool)
    ensures names != [] && !names[0].CurDir? ==> DropCurDirs(names, index, hasRoot) != []
    ensures names != [] && index == 0 && !hasRoot ==> DropCurDirs(names, index, hasRoot) != []
    ensures forall c | c in names && !c.CurDir? :: c in DropCurDirs(names, index, hasRoot)
    decreases |names|
  {
    if names != [] {
      var keep := !names[0].CurDir? || (index == 0 && !hasRoot);
      var tail := DropCurDirs(names[1..], index + 1, hasRoot);
      DropCurDirsKeeps(names[1..], index + 1, hasRoot);
      assert DropCurDirs(names, index, hasRoot) == if keep then [names[0]] + tail else tail;
      forall c | c in names && !c.CurDir?
        ensures c in DropCurDirs(names, index, hasRoot)
      {
        if c != names[0] {
          assert c in names[1..];
        }
      }
    }
  }

  /// Whether the path has a root: a physical one, or one implied by any
  /// prefix but a plain drive
  predicate HasRoot(prefix: Option<PrefixComponent>, root: Option<WindowsComponent>) {
    root.Some? || (prefix.Some? && !prefix.value.parsed.Disk?)
  }

  /// The component list: the prefix, the root, then the names left after
  /// dropping `.`
  function Assemble(prefix: Option<PrefixComponent>, root: Option<WindowsComponent>, names: seq<WindowsComponent>): seq<WindowsComponent> {
    (if prefix.Some? then [Prefix(prefix.value)] else [])
    + (if root.Some? then [root.value] else [])
    + DropCurDirs(names, 0, HasRoot(prefix, root))
  }

  /// `windows_components`: an optional prefix, an optional root, then
  /// names, each with the separators after it; fails when it finds none of
  /// them.
  function WindowsComponentsParse(input: Bytes): (r: PResult<ParsedPath>)
    ensures r.Ok? ==> r.value.raw + r.rest == input
    ensures r.Ok? ==> r.value.components != []
  {
    PartsSuffix(input);
    var prefix := Maybe(PrefixComponentParse, input);
    var root := RootPart(prefix.rest);
    var names := ZeroOrMore(Name, root.rest);
    var components := Assemble(prefix.value, root.value, names.value);
    if components == [] then Fail
    else Ok(names.rest, ParsedPath(Consumed(input, names.rest), components))
  }

  /// The prefix, the root and the names leave a suffix of the input
  lemma PartsSuffix(input: Bytes)
    ensures Consuming(Name)
    ensures IsSuffix(ZeroOrMore(Name, RootPart(Maybe(PrefixComponentParse, input).rest).rest).rest, input)
  {
    NameConsuming();
    var after := Maybe(PrefixComponentParse, input).rest;
    PrefixRestSuffix(input);
    var root := RootPart(after).rest;
    RootRestSuffix(after);
    var names := ZeroOrMore(Name, root).rest;
    SuffixTrans(names, root, after);
    SuffixTrans(names, after, input);
  }

  lemma PrefixRestSuffix(input: Bytes)
    ensures IsSuffix(Maybe(PrefixComponentParse, input).rest, input)
  {
    var prefix := PrefixComponentParse(input);
    if prefix.Ok? {
      assert prefix.value.raw + prefix.rest == input;
      assert input[|input| - |prefix.rest|..] == prefix.rest;
    }
  }

  lemma RootRestSuffix(after: Bytes)
    ensures IsSuffix(RootPart(after).rest, after)
  {
    var k := if |after| > 0 && IsSep(after[0]) then LeadingSeps(after) else 0;
    assert RootPart(after).rest == after[k..];
    DropDrop(after, k, 0);
  }

  /// `parse`: `windows_components` that must consume the whole input
  function Parse(input: Bytes): (r: Option<ParsedPath>)
    ensures r.Some? ==> r.value.raw == input
  {
    match WindowsComponentsParse(input)
    case Ok(rest, path) => if rest != [] then None else Some(path)
    case Fail => None
  }

  // ---------------------------------------------------------------------------
  // A reference reading of the grammar: read the prefix, then split the rest
  // at separators and classify the pieces

  /// Every byte is a separator or allowed in a name
  predicate Clean(s: Bytes) {
    forall k | 0 <= k < |s| :: IsSep(s[k]) || !IsDisallowed(s[k])
  }

  /// Where an input that is not clean holds its first offending byte
  lemma DirtyAt(s: Bytes) returns (j: nat)
    requires !Clean(s)
    ensures j < |s| && !IsSep(s[j]) && IsDisallowed(s[j])
  {
    j :| 0 <= j < |s| && !IsSep(s[j]) && IsDisallowed(s[j]);
  }

  /// One offending byte makes an input not clean
  lemma DirtyFrom(s: Bytes, j: nat)
    requires j < |s| && !IsSep(s[j]) && IsDisallowed(s[j])
    ensures !Clean(s)
  {
  }

  /// Dropping a clean front part keeps the input unclean
  lemma DirtySuffix(s: Bytes, m: nat)
    requires m <= |s| && !Clean(s)
    requires forall i | 0 <= i < m :: IsSep(s[i]) || !IsDisallowed(s[i])
    ensures !Clean(s[m..])
  {
    var j := DirtyAt(s);
    assert j >= m;
    assert s[m..][j - m] == s[j];
    DirtyFrom(s[m..], j - m);
  }

  lemma CleanDrop(s: Bytes, k: nat)
    requires Clean(s) && k <= |s|
    ensures Clean(s[k..])
  {
    assert forall j | 0 <= j < |s| - k :: s[k..][j] == s[k + j];
  }

  /// The input after its prefix, if it has one
  function AfterPrefix(input: Bytes): (r: Bytes)
    ensures IsSuffix(r, input)
  {
    match PrefixComponentParse(input)
    case Ok(rest, p) =>
      assert input[|input| - |rest|..] == rest;
      rest
    case Fail => input
  }

  /// The non-empty separator-delimited segments of `s`, left to right
  function Segments(s: Bytes): seq<Bytes>
    decreases |s|
  {
    if s == [] then []
    else if IsSep(s[0]) then Segments(s[1..])
    else
      var n := FirstMatch(IsSep, s);
      [s[..n]] + Segments(s[n..])
  }

  /// A whole segment read as a component
  function Classify(seg: Bytes): WindowsComponent {
    ClassifyAt(seg, [])
  }

  function ClassifyAll(segs: seq<Bytes>): (r: seq<WindowsComponent>)
    ensures |r| == |segs|
  {
    if segs == [] then [] else [Classify(segs[0])] + ClassifyAll(segs[1..])
  }

  /// The components a path denotes: its prefix, a root when a separator
  /// follows the prefix (or starts the path), then its segments, with `.`
  /// dropped except as the very first segment of a path without a root
  function SpecComponents(input: Bytes): seq<WindowsComponent> {
    var after := AfterPrefix(input);
    var root := if |after| > 0 && IsSep(after[0]) then Some(RootDir) else None;
    Assemble(Maybe(PrefixComponentParse, input).value, root, ClassifyAll(Segments(after)))
  }

  /// `Segments` of an input starting with a name
  lemma SegmentsStep(s: Bytes)
    requires s != [] && !IsSep(s[0])
    ensures Segments(s) == [s[..FirstMatch(IsSep, s)]] + Segments(s[FirstMatch(IsSep, s)..])
  {
  }

  lemma {:induction false} SegmentsSkipSeps(s: Bytes)
    ensures Segments(s) == Segments(s[LeadingSeps(s)..])
    decreases |s|
  {
    if |s| > 0 && IsSep(s[0]) {
      SegmentsSkipSeps(s[1..]);
      LeadingSepsStep(s);
      assert s[1..][LeadingSeps(s[1..])..] == s[LeadingSeps(s)..];
    }
  }

  /// On a clean input the first segment ends at the first separator
  lemma SegLenClean(s: Bytes)
    requires Clean(s)
    ensures SegLen(s) == FirstMatch(IsSep, s)
  {
    var a := SegLen(s);
    var b := FirstMatch(IsSep, s);
    assert a < |s| ==> IsSep(s[a]);
    assert b < |s| ==> IsDisallowed(s[b]);
  }

  /// One name of a clean input: its first segment, classified, with the
  /// separators after it
  lemma NameOnClean(s: Bytes)
    requires Clean(s) && s != [] && !IsSep(s[0])
    ensures var n := FirstMatch(IsSep, s);
            Name(s) == Ok(s[n..][LeadingSeps(s[n..])..], Classify(s[..n]))
  {
    SegLenClean(s);
    var n := SegLen(s);
    assert FileOrDirName(s).rest == s[n..];
  }

  /// One step over a clean input: the first name is its first segment, and
  /// the rest is again clean and starts with a name or is empty
  lemma NameStep(s: Bytes) returns (seg: Bytes, next: Bytes)
    requires Consuming(Name)
    requires Clean(s) && s != [] && !IsSep(s[0])
    ensures |next| < |s| && Clean(next) && (next == [] || !IsSep(next[0]))
    ensures Many(Name, s) == (Many(Name, next).0, [Classify(seg)] + Many(Name, next).1)
    ensures Segments(s) == [seg] + Segments(next)
  {
    var n := FirstMatch(IsSep, s);
    var after := s[n..];
    var m := LeadingSeps(after);
    next := after[m..];
    seg := s[..n];
    assert n > 0;
    NameOnClean(s);
    ManyStep(Name, s);
    DropDrop(s, n, m);
    CleanDrop(s, n + m);
    SegmentsSkipSeps(after);
    SegmentsStep(s);
  }

  /// The names of a clean input that does not start with a separator are
  /// its classified segments, and they use up the whole input
  lemma {:induction false} NamesOfClean(s: Bytes)
    requires Consuming(Name)
    requires Clean(s) && (s == [] || !IsSep(s[0]))
    ensures Many(Name, s) == ([], ClassifyAll(Segments(s)))
    decreases |s|
  {
    if s != [] {
      var seg, next := NameStep(s);
      NamesOfClean(next);
      assert ([seg] + Segments(next))[1..] == Segments(next);
    }
  }

  /// A name and its separators hold only separators and name bytes
  lemma NameSkipsClean(s: Bytes)
    requires Name(s).Ok?
    ensures forall j | 0 <= j < |s| - |Name(s).rest| :: IsSep(s[j]) || !IsDisallowed(s[j])
  {
    var n, k := NameSplit(s);
    forall j | 0 <= j < n + k
      ensures IsSep(s[j]) || !IsDisallowed(s[j])
    {
      if j < n {
        assert !IsDisallowed(s[j]);
      } else {
        assert IsSep(s[n..][j - n]);
      }
    }
  }

  /// What a name reads: its segment, then the separators after it
  lemma NameSplit(s: Bytes) returns (n: nat, k: nat)
    requires Name(s).Ok?
    ensures n == SegLen(s) && k == LeadingSeps(s[n..])
    ensures n + k == |s| - |Name(s).rest| && Name(s).rest == s[n + k..]
  {
    n := SegLen(s);
    k := LeadingSeps(s[n..]);
    DropDrop(s, n, k);
  }

  /// Names never consume a disallowed byte other than a separator: one left
  /// in the input stays unparsed
  lemma {:induction false} NamesStopAtDisallowed(s: Bytes)
    requires Consuming(Name)
    requires !Clean(s)
    ensures Many(Name, s).0 != []
    decreases |s|
  {
    if Name(s).Ok? {
      ManyStep(Name, s);
      DisallowedSurvivesName(s);
      NamesStopAtDisallowed(Name(s).rest);
    }
  }

  /// A name leaves a disallowed byte other than a separator in the input
  lemma DisallowedSurvivesName(s: Bytes)
    requires Name(s).Ok? && !Clean(s)
    ensures !Clean(Name(s).rest)
  {
    var n, k := NameSplit(s);
    NameSkipsClean(s);
    DirtySuffix(s, n + k);
  }

  /// The root part and the names after it, on a clean rest of the input
  lemma NamesAfterRoot(after: Bytes)
    requires Clean(after)
    ensures Consuming(Name)
    ensures ZeroOrMore(Name, RootPart(after).rest) == Ok([], ClassifyAll(Segments(after)))
  {
    NameConsuming();
    var root := RootPart(after);
    SegmentsSkipSeps(after);
    assert root.rest == after[LeadingSeps(after)..];
    CleanDrop(after, LeadingSeps(after));
    NamesOfClean(root.rest);
  }

  /// The root part consumes only separators
  lemma DisallowedSurvivesRoot(after: Bytes)
    requires !Clean(after)
    ensures !Clean(RootPart(after).rest)
  {
    var k := if |after| > 0 && IsSep(after[0]) then LeadingSeps(after) else 0;
    assert RootPart(after).rest == after[k..];
    DirtySuffix(after, k);
  }

  /// A disallowed byte after the prefix is still there after the names
  lemma NamesLeaveDisallowed(after: Bytes)
    requires !Clean(after)
    ensures Consuming(Name)
    ensures ZeroOrMore(Name, RootPart(after).rest).rest != []
  {
    NameConsuming();
    DisallowedSurvivesRoot(after);
    NamesStopAtDisallowed(RootPart(after).rest);
  }

  /// A non-empty path gives at least one component
  lemma SpecNonEmpty(input: Bytes)
    requires input != []
    ensures SpecComponents(input) != []
  {
    var after := AfterPrefix(input);
    if PrefixComponentParse(input).Fail? && !(|after| > 0 && IsSep(after[0])) {
      assert after == input;
      DropCurDirsKeeps(ClassifyAll(Segments(after)), 0, false);
    }
  }

  /// The root part of the rest after the prefix is the reference root
  lemma RootOfAfter(after: Bytes)
    ensures RootPart(after).value == if |after| > 0 && IsSep(after[0]) then Some(RootDir) else None
  {
  }

  /// The reference components, assembled from the root part the parser sees
  lemma SpecFromRootPart(input: Bytes)
    ensures var after := AfterPrefix(input);
            SpecComponents(input) == Assemble(Maybe(PrefixComponentParse, input).value, RootPart(after).value, ClassifyAll(Segments(after)))
  {
    RootOfAfter(AfterPrefix(input));
  }

  /// `windows_components` in terms of the rest after the prefix
  lemma ComponentsViaAfter(input: Bytes)
    ensures Consuming(Name)
    ensures var after := AfterPrefix(input);
            var root := RootPart(after);
            var names := ZeroOrMore(Name, root.rest);
            var r := WindowsComponentsParse(input);
            var cs := Assemble(Maybe(PrefixComponentParse, input).value, root.value, names.value);
            (r.Ok? <==> cs != []) && (r.Ok? ==> r.rest == names.rest && r.value.components == cs)
  {
    NameConsuming();
    assert Maybe(PrefixComponentParse, input).rest == AfterPrefix(input);
  }

  /// What `windows_components` yields when the input after the prefix is clean
  lemma ComponentsOnClean(input: Bytes)
    requires input != [] && Clean(AfterPrefix(input))
    ensures WindowsComponentsParse(input) == Ok([], ParsedPath(input, SpecComponents(input)))
  {
    var after := AfterPrefix(input);
    ComponentsViaAfter(input);
    NamesAfterRoot(after);
    SpecFromRootPart(input);
    SpecNonEmpty(input);
    var r := WindowsComponentsParse(input);
    assert r.Ok? && r.rest == [] && r.value.components == SpecComponents(input);
    assert r.value.raw == r.value.raw + r.rest;
  }

  /// What `windows_components` leaves unparsed when the input after the
  /// prefix is not clean
  lemma ComponentsOnDisallowed(input: Bytes)
    requires !Clean(AfterPrefix(input))
    ensures WindowsComponentsParse(input).Ok? ==> WindowsComponentsParse(input).rest != []
  {
    var after := AfterPrefix(input);
    assert Maybe(PrefixComponentParse, input).rest == after;
    NamesLeaveDisallowed(after);
  }

  /// `parse` succeeds exactly on non-empty input whose bytes after the
  /// prefix are separators and name bytes, and then yields the reference
  /// components over the whole input. In particular it fails on empty input
  /// and on `abc\0def`.
  lemma ParseMatchesSegments(input: Bytes)
    ensures Parse(input).Some? <==> input != [] && Clean(AfterPrefix(input))
    ensures Parse(input).Some? ==> Parse(input).value == ParsedPath(input, SpecComponents(input))
  {
    if input == [] {
      assert ParsePrefix(input).Fail?;
      assert AfterPrefix(input) == [];
      NameConsuming();
      assert ZeroOrMore(Name, RootPart(input).rest).value == [];
      assert WindowsComponentsParse(input).Fail?;
    } else if Clean(AfterPrefix(input)) {
      ComponentsOnClean(input);
    } else {
      ComponentsOnDisallowed(input);
    }
  }
}

module WindowsPathParserProperties {
  import opened ByteSeq
  import opened Combinators
  import opened WindowsComponentModel
  import opened WindowsGrammar
  import opened WindowsPrefixProperties
  import opened WindowsPathParser

  lemma {:induction false} ClassifyAllNames(segs: seq<Bytes>)
    ensures forall c | c in ClassifyAll(segs) :: !c.Prefix? && !c.RootDir?
    decreases |segs|
  {
    if segs != [] {
      ClassifyAllNames(segs[1..]);
    }
  }

  /// Where each kind of component can sit in an assembled list
  lemma AssembleShape(prefix: Option<PrefixComponent>, root: Option<WindowsComponent>, names: seq<WindowsComponent>)
    requires root.None? || root.value == RootDir
    requires forall c | c in names :: !c.Prefix? && !c.RootDir?
    ensures var cs := Assemble(prefix, root, names);
            var first := if prefix.Some? then 1 else 0;
            (forall i | 0 <= i < |cs| :: cs[i].Prefix? <==> i == 0 && prefix.Some?)
            && (forall i | 0 <= i < |cs| :: cs[i].RootDir? <==> i == first && root.Some?)
            && (forall i | 0 <= i < |cs| :: cs[i].CurDir? ==> i == first && !HasRoot(prefix, root))
  {
    var kept := DropCurDirs(names, 0, HasRoot(prefix, root));
    var head := (if prefix.Some? then [Prefix(prefix.value)] else []) + (if root.Some? then [root.value] else []);
    var cs := head + kept;
    assert forall i | |head| <= i < |cs| :: cs[i] == kept[i - |head|];
  }

  /// The reference components of a path that parses, assembled
  lemma ParsedAssembled(input: Bytes) returns (prefix: Option<PrefixComponent>, root: Option<WindowsComponent>, names: seq<WindowsComponent>)
    requires Parse(input).Some?
    ensures Parse(input).value.components == Assemble(prefix, root, names)
    ensures prefix.Some? <==> ParsePrefix(input).Ok?
    ensures prefix.Some? ==> prefix.value.parsed == ParsePrefix(input).value
                             && WithBackslashes(prefix.value.raw) == Render(prefix.value.parsed)
    ensures root.None? || root.value == RootDir
    ensures forall c | c in names :: !c.Prefix? && !c.RootDir?
  {
    ParseMatchesSegments(input);
    var after := AfterPrefix(input);
    prefix := Maybe(PrefixComponentParse, input).value;
    root := if |after| > 0 && IsSep(after[0]) then Some(RootDir) else None;
    names := ClassifyAll(Segments(after));
    ClassifyAllNames(Segments(after));
  }

  /// The shape of every parsed path: a prefix only first, exactly when the
  /// input starts with one, and then read from bytes that are its text; a
  /// root only first or right after the prefix; `.` only as the first name,
  /// and only in a path without a root
  lemma ParseShape(input: Bytes)
    requires Parse(input).Some?
    ensures var cs := Parse(input).value.components;
            var first := if ParsePrefix(input).Ok? then 1 else 0;
            (forall i | 0 <= i < |cs| :: cs[i].Prefix? <==> i == 0 && ParsePrefix(input).Ok?)
            && (ParsePrefix(input).Ok? ==> cs[0].prefix.parsed == ParsePrefix(input).value
                                            && WithBackslashes(cs[0].prefix.raw) == Render(cs[0].prefix.parsed))
            && (forall i | 0 <= i < |cs| :: cs[i].RootDir? ==> i == first)
            && (forall i | 0 <= i < |cs| :: cs[i].CurDir? ==> i == first && forall j | 0 <= j < |cs| :: !IsRoot(cs[j]))
  {
    var prefix, root, names := ParsedAssembled(input);
    AssembleShape(prefix, root, names);
    AssembleRoots(prefix, root, names);
  }

  /// An assembled list has a root component exactly when the path has a root
  lemma AssembleRoots(prefix: Option<PrefixComponent>, root: Option<WindowsComponent>, names: seq<WindowsComponent>)
    requires root.None? || root.value == RootDir
    requires forall c | c in names :: !c.Prefix? && !c.RootDir?
    ensures var cs := Assemble(prefix, root, names);
            (exists j | 0 <= j < |cs| :: IsRoot(cs[j])) <==> HasRoot(prefix, root)
  {
    var kept := DropCurDirs(names, 0, HasRoot(prefix, root));
    var head := (if prefix.Some? then [Prefix(prefix.value)] else []) + (if root.Some? then [root.value] else []);
    var cs := head + kept;
    assert cs == Assemble(prefix, root, names);
    forall i | |head| <= i < |cs|
      ensures !IsRoot(cs[i])
    {
      assert cs[i] == kept[i - |head|] && cs[i] in names;
    }
    if HasRoot(prefix, root) {
      if prefix.Some? && !prefix.value.parsed.Disk? {
        assert IsRoot(cs[0]);
      } else {
        assert IsRoot(cs[|head| - 1]);
      }
    } else {
      assert |head| == 0 || (|head| == 1 && !IsRoot(head[0]));
    }
  }

  // ---------------------------------------------------------------------------
  // Examples from the parser's own tests

  /// `C:` followed by anything but a separator: only the drive is a prefix
  lemma DriveIsPrefix(s: Bytes, d: byte)
    requires IsAlphabetic(d) && |s| >= 2 && s[0] == d && s[1] == COLON
    ensures ParsePrefix(s) == Ok(s[2..], Disk(d))
  {
    AnyOfSix(PrefixVerbatimUNC, PrefixVerbatimDisk, PrefixVerbatim, PrefixDeviceNS, PrefixUNC, PrefixDisk, s);
  }

  /// A path that starts with a prefix and is clean after it
  lemma ParseWithPrefix(s: Bytes, raw: Bytes, p: WindowsPrefix, rest: Bytes)
    requires ParsePrefix(s) == Ok(rest, p) && raw + rest == s && Clean(rest)
    ensures var root := if |rest| > 0 && IsSep(rest[0]) then Some(RootDir) else None;
            Parse(s) == Some(ParsedPath(s, Assemble(Some(PrefixComponent(raw, p)), root, ClassifyAll(Segments(rest)))))
  {
    assert AfterPrefix(s) == rest;
    assert Consumed(s, rest) == raw;
    ParseMatchesSegments(s);
  }

  /// A lone `.` is one segment, read as `CurDir`
  lemma DotSegment(t: Bytes)
    requires t == [DOT]
    ensures Clean(t) && ClassifyAll(Segments(t)) == [CurDir]
  {
    assert FirstMatch(IsSep, t) == 1;
    assert t[..1] == [DOT] && t[1..] == [];
  }

  /// A prefix followed by nothing, or by a lone `.`: the `.` stays only
  /// after a plain drive
  lemma AssemblePrefixOnly(pc: PrefixComponent)
    ensures Assemble(Some(pc), None, []) == [Prefix(pc)]
    ensures Assemble(Some(pc), None, [CurDir]) == if pc.parsed.Disk? then [Prefix(pc), CurDir] else [Prefix(pc)]
  {
    assert DropCurDirs([CurDir], 0, !pc.parsed.Disk?) == if pc.parsed.Disk? then [CurDir] else [] by {
      assert [CurDir][1..] == [];
    }
  }

  /// `C:.` keeps its `.`: a plain drive does not imply a root
  lemma DriveDotKeepsCurDir(s: Bytes)
    requires s == [67, COLON, DOT]
    ensures Parse(s) == Some(ParsedPath(s, [Prefix(PrefixComponent([67, COLON], Disk(67))), CurDir]))
  {
    assert IsAlphabetic(67);
    DriveIsPrefix(s, 67);
    DotSegment(s[2..]);
    ParseWithPrefix(s, [67, COLON], Disk(67), s[2..]);
    AssemblePrefixOnly(PrefixComponent([67, COLON], Disk(67)));
  }

  /// `\\?\C:.` drops its `.`: a verbatim drive implies a root
  lemma VerbatimDriveDotDropsCurDir(s: Bytes)
    requires s == VERBATIM_START + [67, COLON, DOT]
    ensures Parse(s) == Some(ParsedPath(s, [Prefix(PrefixComponent(VERBATIM_START + [67, COLON], VerbatimDisk(67)))]))
  {
    var raw := VERBATIM_START + [67, COLON];
    VerbatimDriveThenDot(s, raw);
    DotSegment([DOT]);
    ParseWithPrefix(s, raw, VerbatimDisk(67), [DOT]);
    AssemblePrefixOnly(PrefixComponent(raw, VerbatimDisk(67)));
  }

  lemma VerbatimDriveThenDot(s: Bytes, raw: Bytes)
    requires raw == VERBATIM_START + [67, COLON] && s == raw + [DOT]
    ensures ParsePrefix(s) == Ok([DOT], VerbatimDisk(67))
  {
    assert IsAlphabetic(67);
    assert s[4] == 67 && s[5] == COLON && s[6..] == [DOT];
    AnyOfSix(PrefixVerbatimUNC, PrefixVerbatimDisk, PrefixVerbatim, PrefixDeviceNS, PrefixUNC, PrefixDisk, s);
  }

  /// `\\server\share` is a single UNC prefix component
  lemma UNCAlone(s: Bytes, server: Bytes, share: Bytes)
    requires WellFormed(UNC(server, share))
    requires s == [BACKSLASH, BACKSLASH] + (server + ([BACKSLASH] + (share + [])))
    ensures Parse(s) == Some(ParsedPath(s, [Prefix(PrefixComponent(s, UNC(server, share)))]))
  {
    ReadsUNC(server, share, [], s);
    ParseWithPrefix(s, s, UNC(server, share), []);
    assert ClassifyAll(Segments([])) == [];
    AssemblePrefixOnly(PrefixComponent(s, UNC(server, share)));
  }

  /// `1:` is not a drive, and `:` is not allowed in a name, so it is rejected
  lemma DigitColonRejected(s: Bytes)
    requires s == [49, COLON]
    ensures Parse(s).None?
  {
    assert !IsAlphabetic(49);
    AnyOfSix(PrefixVerbatimUNC, PrefixVerbatimDisk, PrefixVerbatim, PrefixDeviceNS, PrefixUNC, PrefixDisk, s);
    assert AfterPrefix(s) == s && !IsSep(s[1]) && IsDisallowed(s[1]);
    ParseMatchesSegments(s);
  }
}
