/// What the incremental Windows parser reads from the front, compared with a
/// reading of the path as segments between separators, and the places where
/// the code as written differs from it.
module WindowsIncrementalProperties {
  import opened ByteSeq
  import opened Combinators
  import opened WindowsComponentModel
  import opened WindowsGrammar
  import opened WindowsStepGrammar
  import opened WindowsIncremental

  // ---------------------------------------------------------------------------
  // The reference reading

  /// The segments of `s` between the separators of one mode, empty ones
  /// included
  function SegmentsIn(normalize: bool, s: Bytes): (r: seq<Bytes>)
    ensures |r| >= 1
    decreases |s|
  {
    var n := SegLenIn(normalize, s);
    if n == |s| then [s] else [s[..n]] + SegmentsIn(normalize, s[n + 1..])
  }

  /// A segment that becomes a component: not empty (repeated separators
  /// collapse) and, when normalising, not a lone `.`
  predicate Kept(normalize: bool, seg: Bytes) {
    seg != [] && !(normalize && seg == CURRENT_DIR)
  }

  /// The kept segments, classified
  function NamesOf(normalize: bool, segs: seq<Bytes>): seq<WindowsComponent> {
    if segs == [] then []
    else (if Kept(normalize, segs[0]) then [ClassifyIn(normalize, segs[0])] else []) + NamesOf(normalize, segs[1..])
  }

  function Names(normalize: bool, s: Bytes): seq<WindowsComponent> {
    NamesOf(normalize, SegmentsIn(normalize, s))
  }

  /// What follows a prefix (or starts a path without one): a root for a
  /// leading separator, a `.` kept as `CurDir` in first place, then the names
  function AfterPrefixSpec(normalize: bool, s: Bytes): seq<WindowsComponent> {
    if s == [] then []
    else if IsSepIn(normalize, s[0]) then [RootDir] + Names(normalize, s[1..])
    else if normalize && CurDirIn(true, s).Ok? then [CurDir] + Names(normalize, s[1..])
    else Names(normalize, s)
  }

  /// The components of a whole path: its prefix, if it starts with one, and
  /// what follows
  function SpecFront(normalize: bool, input: Bytes): seq<WindowsComponent> {
    match StepPrefixComponent(input)
    case Ok(rest, pc) => [Prefix(pc)] + AfterPrefixSpec(normalize, rest)
    case Fail => AfterPrefixSpec(normalize, input)
  }

  // ---------------------------------------------------------------------------
  // Steps of the reference reading

  lemma NamesOfCons(normalize: bool, seg: Bytes, segs: seq<Bytes>)
    ensures NamesOf(normalize, [seg] + segs)
         == (if Kept(normalize, seg) then [ClassifyIn(normalize, seg)] else []) + NamesOf(normalize, segs)
  {
    assert ([seg] + segs)[1..] == segs;
  }

  lemma NamesOfSingle(normalize: bool, seg: Bytes)
    ensures NamesOf(normalize, [seg]) == if Kept(normalize, seg) then [ClassifyIn(normalize, seg)] else []
  {
    assert [seg][1..] == [];
  }

  lemma NamesOfEmpty(normalize: bool)
    ensures Names(normalize, []) == []
  {
    assert SegmentsIn(normalize, []) == [[]];
    var none: seq<Bytes> := [];
    NamesOfCons(normalize, [], none);
    assert [[]] == [[]] + none;
  }

  /// The first segment of `s` and the segments after the separator that
  /// ends it
  lemma SegmentsStep(normalize: bool, s: Bytes)
    ensures var n := SegLenIn(normalize, s);
            SegmentsIn(normalize, s) == if n == |s| then [s] else [s[..n]] + SegmentsIn(normalize, s[n + 1..])
  {
  }

  /// A leading separator starts with an empty segment
  lemma SegmentsAtSep(normalize: bool, s: Bytes)
    requires s != [] && IsSepIn(normalize, s[0])
    ensures SegmentsIn(normalize, s) == [[]] + SegmentsIn(normalize, s[1..])
  {
    assert SegLenIn(normalize, s) == 0;
  }

  /// A leading separator does not change the names
  lemma NamesAtSep(normalize: bool, s: Bytes)
    requires s != [] && IsSepIn(normalize, s[0])
    ensures Names(normalize, s) == Names(normalize, s[1..])
  {
    SegmentsAtSep(normalize, s);
    NamesOfCons(normalize, [], SegmentsIn(normalize, s[1..]));
  }

  /// The names of `s` when its first segment is kept: that segment, then the
  /// names of what follows it
  lemma NameFirst(normalize: bool, s: Bytes)
    requires s != [] && Kept(normalize, s[..SegLenIn(normalize, s)])
    ensures var n := SegLenIn(normalize, s);
            Names(normalize, s) == [ClassifyIn(normalize, s[..n])] + Names(normalize, s[n..])
  {
    var n := SegLenIn(normalize, s);
    SegmentsStep(normalize, s);
    if n == |s| {
      assert s[..n] == s && s[n..] == [];
      NamesOfSingle(normalize, s);
      NamesOfEmpty(normalize);
    } else {
      NamesOfCons(normalize, s[..n], SegmentsIn(normalize, s[n + 1..]));
      NamesAtSep(normalize, s[n..]);
      assert s[n..][1..] == s[n + 1..];
    }
  }

  /// At the start of a name the first segment is kept
  lemma AtNameKept(normalize: bool, s: Bytes)
    requires s != [] && AtName(normalize, s)
    ensures Kept(normalize, s[..SegLenIn(normalize, s)])
  {
    assert SegLenIn(normalize, s) >= 1;
    DotSegment(normalize, s);
  }

  /// A first segment `.` is what `cur_dir` reads
  lemma DotSegment(normalize: bool, s: Bytes)
    requires s != []
    ensures s[..SegLenIn(normalize, s)] == CURRENT_DIR ==> CurDirIn(normalize, s).Ok?
  {
    var n := SegLenIn(normalize, s);
    assert s[..n] == CURRENT_DIR ==> n == 1 && s[0] == DOT;
  }

  // ---------------------------------------------------------------------------
  // The skip between components

  /// One skipped separator or lone `.` does not change the names
  lemma SkipOne(normalize: bool, u: Bytes)
    requires SkipStep(normalize, u).Ok?
    ensures Names(normalize, u) == Names(normalize, u[1..])
  {
    if IsSepIn(normalize, u[0]) {
      NamesAtSep(normalize, u);
    } else {
      SkipLoneDot(normalize, u);
    }
  }

  /// One skipped lone `.` does not change the names
  lemma SkipLoneDot(normalize: bool, u: Bytes)
    requires normalize && |u| > 0 && CurDirIn(true, u).Ok? && !IsSepIn(normalize, u[0])
    ensures Names(normalize, u) == Names(normalize, u[1..])
  {
    assert SegLenIn(normalize, u) == 1;
    assert u[..1] == CURRENT_DIR;
    SegmentsStep(normalize, u);
    if |u| == 1 {
      assert u == u[..1] && u[1..] == [];
      NamesOfSingle(normalize, u);
      NamesOfEmpty(normalize);
    } else {
      NamesOfCons(normalize, u[..1], SegmentsIn(normalize, u[2..]));
      NamesAtSep(normalize, u[1..]);
      assert u[1..][1..] == u[2..];
    }
  }

  lemma SkipLenStep(normalize: bool, u: Bytes)
    ensures SkipStep(normalize, u).Ok? ==> SkipLen(normalize, u) == 1 + SkipLen(normalize, u[1..])
    ensures SkipStep(normalize, u).Fail? ==> SkipLen(normalize, u) == 0
  {
    assert u[0..] == u;
  }

  /// Everything the parser skips between components leaves the names as
  /// they were
  lemma {:induction false} SkipAll(normalize: bool, u: Bytes)
    ensures Names(normalize, u) == Names(normalize, u[SkipLen(normalize, u)..])
    decreases |u|
  {
    SkipLenStep(normalize, u);
    if SkipStep(normalize, u).Ok? {
      SkipOne(normalize, u);
      SkipAll(normalize, u[1..]);
      assert u[1..][SkipLen(normalize, u[1..])..] == u[SkipLen(normalize, u)..];
    } else {
      assert u[0..] == u;
    }
  }

  // ---------------------------------------------------------------------------
  // The front parser against the reference reading

  /// Past the beginning, the front parser reads the first name and skips
  /// what follows it
  lemma FrontNameStep(normalize: bool, s: Bytes)
    requires s != [] && AtName(normalize, s)
    ensures var n := SegLenIn(normalize, s);
            ParseFront(NotAtBeginning, normalize, s) == Ok(s[n..][SkipLen(normalize, s[n..])..], ClassifyIn(normalize, s[..n]))
  {
  }

  /// Past the beginning, at the start of a name, the front parser lists
  /// exactly the names of the rest of the input
  lemma {:induction false} FrontNames(normalize: bool, s: Bytes)
    requires AtName(normalize, s)
    ensures FrontList(NotAtBeginning, normalize, s) == Names(normalize, s)
    decreases |s|
  {
    if s == [] {
      NamesOfEmpty(normalize);
    } else {
      var n := SegLenIn(normalize, s);
      var t := s[n..];
      FrontNameStep(normalize, s);
      var rest := t[SkipLen(normalize, t)..];
      AtNameKept(normalize, s);
      NameFirst(normalize, s);
      SkipAll(normalize, t);
      FrontNames(normalize, rest);
    }
  }

  /// The first component after a prefix, or at the start of a path without
  /// one, and the skip after it
  lemma AfterPrefixStep(state: State, normalize: bool, s: Bytes)
    requires s != []
    requires state == SeenPrefix || (state == AtBeginning && StepPrefixComponent(s).Fail?)
    ensures var c := AfterPrefixChoice(normalize, s);
            ParseFront(state, normalize, s) == Ok(c.rest[SkipLen(normalize, c.rest)..], c.value)
  {
    assert Choice(state, normalize, s) == AfterPrefixChoice(normalize, s);
  }

  /// In a verbatim path a lone `.` after a prefix is its first name
  lemma VerbatimDotIsName(s: Bytes)
    requires s != [] && !IsSepIn(false, s[0]) && CurDirIn(false, s).Ok?
    ensures Names(false, s) == [CurDir] + Names(false, s[1..])
  {
    assert SegLenIn(false, s) == 1;
    assert s[..1] == CURRENT_DIR;
    NameFirst(false, s);
  }

  /// After a prefix, or at the start of a path without one, the front parser
  /// lists the root, a first `.` and the names
  lemma FrontAfterPrefix(state: State, normalize: bool, s: Bytes)
    requires state == SeenPrefix || (state == AtBeginning && StepPrefixComponent(s).Fail?)
    ensures FrontList(state, normalize, s) == AfterPrefixSpec(normalize, s)
  {
    if s != [] {
      var c := AfterPrefixChoice(normalize, s);
      AfterPrefixStep(state, normalize, s);
      var rest := c.rest[SkipLen(normalize, c.rest)..];
      SkipAll(normalize, c.rest);
      FrontNames(normalize, rest);
      assert FrontList(state, normalize, s) == [c.value] + Names(normalize, rest);
      if IsSepIn(normalize, s[0]) {
      } else if CurDirIn(normalize, s).Ok? {
        if !normalize {
          VerbatimDotIsName(s);
        }
      } else {
        assert normalize ==> CurDirIn(true, s).Fail?;
        AtNameKept(normalize, s);
        NameFirst(normalize, s);
      }
    }
  }

  /// Read from the front, the incremental parser yields the reference
  /// components of any input, in either separator mode
  lemma FrontAgrees(normalize: bool, input: Bytes)
    ensures FrontList(AtBeginning, normalize, input) == SpecFront(normalize, input)
  {
    match StepPrefixComponent(input)
    case Ok(rest, pc) =>
      assert ParseFront(AtBeginning, normalize, input) == Ok(rest, Prefix(pc));
      FrontAfterPrefix(SeenPrefix, normalize, rest);
    case Fail =>
      FrontAfterPrefix(AtBeginning, normalize, input);
  }

  // ---------------------------------------------------------------------------
  // The shape of what the front parser lists

  /// Names are file names, `..`, and `.` only in a verbatim path
  lemma {:induction false} NamesOfKinds(normalize: bool, segs: seq<Bytes>)
    ensures forall c | c in NamesOf(normalize, segs) :: c.Normal? || c.ParentDir? || (!normalize && c.CurDir?)
    decreases |segs|
  {
    if segs != [] {
      NamesOfKinds(normalize, segs[1..]);
      NamesOfCons(normalize, segs[0], segs[1..]);
      assert segs == [segs[0]] + segs[1..];
    }
  }

  lemma NamesKinds(normalize: bool, s: Bytes)
    ensures forall c | c in Names(normalize, s) :: c.Normal? || c.ParentDir? || (!normalize && c.CurDir?)
  {
    NamesOfKinds(normalize, SegmentsIn(normalize, s));
  }

  /// After a prefix there is no prefix, and past the first component only
  /// names
  lemma AfterPrefixKinds(normalize: bool, s: Bytes)
    ensures var cs := AfterPrefixSpec(normalize, s);
            forall i | 0 <= i < |cs| :: !cs[i].Prefix? && (i > 0 ==> cs[i].Normal? || cs[i].ParentDir? || (!normalize && cs[i].CurDir?))
  {
    if s != [] {
      var cs := AfterPrefixSpec(normalize, s);
      if IsSepIn(normalize, s[0]) || (normalize && CurDirIn(true, s).Ok?) {
        var names := Names(normalize, s[1..]);
        NamesKinds(normalize, s[1..]);
        assert cs == [cs[0]] + names;
        assert forall i | 0 < i < |cs| :: cs[i] == names[i - 1] && names[i - 1] in names;
      } else {
        NamesKinds(normalize, s);
        assert forall i | 0 <= i < |cs| :: cs[i] in Names(normalize, s);
      }
    }
  }

  /// A prefix comes only first; a root only first or right after the
  /// prefix; past those, a `CurDir` only in a verbatim path
  lemma FrontShape(normalize: bool, input: Bytes)
    ensures var cs := FrontList(AtBeginning, normalize, input);
            forall i | 0 < i < |cs| :: !cs[i].Prefix? && (cs[i].RootDir? ==> i == 1 && cs[0].Prefix?)
  {
    FrontAgrees(normalize, input);
    match StepPrefixComponent(input)
    case Ok(rest, pc) =>
      AfterPrefixKinds(normalize, rest);
    case Fail =>
      AfterPrefixKinds(normalize, input);
  }

  // ---------------------------------------------------------------------------
  // The code as written

  /// No prefix starts with a byte that is not a separator unless a `:`
  /// follows it
  lemma NoPrefix(s: Bytes)
    requires s != [] && !IsSep(s[0]) && (|s| < 2 || s[1] != COLON)
    ensures StepPrefixComponent(s).Fail?
  {
    AnyOfSix(StepVerbatimUNC, PrefixVerbatimDisk, StepVerbatim, StepDeviceNS, StepUNC, PrefixDisk, s);
  }

  /// One step of the front list as written
  lemma FrontListAsWrittenStep(state: State, normalize: bool, s: Bytes, rest: Bytes, c: WindowsComponent)
    requires ParseFrontAsWritten(state, normalize, s) == Ok(rest, c) && |rest| < |s|
    ensures FrontListAsWritten(state, normalize, s) == [c] + FrontListAsWritten(NextState(c), normalize, rest)
  {
  }

  /// `move_to_next` as written fails at the end of the input, so the front
  /// parser as written loses a component that ends the input, which the
  /// corrected parser reads
  lemma LastComponentLostAsWritten(state: State, normalize: bool, s: Bytes)
    requires Choice(state, normalize, s).Ok? && Choice(state, normalize, s).rest == []
    ensures ParseFrontAsWritten(state, normalize, s).Fail?
    ensures ParseFront(state, normalize, s).Ok?
  {
    assert SkipLenAsWritten(normalize, [], NUL) == 0;
  }

  /// The first step on a path that is one name: the name, which ends the
  /// input
  lemma SingleNameStep(normalize: bool, s: Bytes)
    requires s != [] && s != CURRENT_DIR && (|s| < 2 || s[1] != COLON)
    requires forall k | 0 <= k < |s| :: !IsSep(s[k])
    ensures Choice(AtBeginning, normalize, s) == Ok([], ClassifyIn(normalize, s))
  {
    NoPrefix(s);
    NameOnly(normalize, s);
    assert s[..|s|] == s && s[|s|..] == [];
    assert CurDirIn(normalize, s).Fail?;
  }

  /// A path that is one name, `hello` say: as written the front parser lists
  /// nothing
  lemma SingleNameLostAsWritten(normalize: bool, s: Bytes)
    requires s != [] && s != CURRENT_DIR && (|s| < 2 || s[1] != COLON)
    requires forall k | 0 <= k < |s| :: !IsSep(s[k])
    ensures FrontListAsWritten(AtBeginning, normalize, s) == []
  {
    SingleNameStep(normalize, s);
    LastComponentLostAsWritten(AtBeginning, normalize, s);
  }

  /// A path that is one name, corrected: the name
  lemma SingleNameCorrected(normalize: bool, s: Bytes)
    requires s != [] && s != CURRENT_DIR && (|s| < 2 || s[1] != COLON)
    requires forall k | 0 <= k < |s| :: !IsSep(s[k])
    ensures FrontList(AtBeginning, normalize, s) == [ClassifyIn(normalize, s)]
  {
    NoPrefix(s);
    NameOnly(normalize, s);
    FrontAgrees(normalize, s);
    assert CurDirIn(true, s).Fail?;
  }

  /// `hello`
  lemma HelloAsWritten(s: Bytes)
    requires s == [0x68, 0x65, 0x6c, 0x6c, 0x6f]
    ensures FrontListAsWritten(AtBeginning, true, s) == []
    ensures FrontList(AtBeginning, true, s) == [Normal(s)]
  {
    SingleNameLostAsWritten(true, s);
    SingleNameCorrected(true, s);
  }

  /// The same loss after a prefix
  lemma AfterPrefixNameLost(normalize: bool, name: Bytes)
    requires name != [] && name != CURRENT_DIR
    requires forall k | 0 <= k < |name| :: !IsSep(name[k])
    ensures ParseFrontAsWritten(SeenPrefix, normalize, name).Fail?
  {
    NameOnly(normalize, name);
    assert name[..|name|] == name && name[|name|..] == [];
    assert CurDirIn(normalize, name).Fail?;
    LastComponentLostAsWritten(SeenPrefix, normalize, name);
  }

  /// A name without separators is one component
  lemma NameOnly(normalize: bool, name: Bytes)
    requires name != [] && name != CURRENT_DIR
    requires forall k | 0 <= k < |name| :: !IsSep(name[k])
    ensures SegLenIn(normalize, name) == |name|
    ensures Names(normalize, name) == [ClassifyIn(normalize, name)]
  {
    FirstMatchUnique(IsSep, name, |name|);
    FirstMatchUnique(IsBackslash, name, |name|);
    SegmentsStep(normalize, name);
    NamesOfSingle(normalize, name);
  }

  /// A drive letter and `:` start a disk prefix
  lemma DiskPrefixStep(s: Bytes, d: byte)
    requires |s| >= 2 && s[0] == d && IsAlphabetic(d) && s[1] == COLON
    ensures StepPrefixComponent(s) == Ok(s[2..], PrefixComponent(s[..2], Disk(d)))
  {
    assert !IsSep(s[0]);
    StepPrefixNotUNC(s);
    assert s[..|s| - |s[2..]|] == s[..2];
  }

  /// `C:\x`: as written, `move_to_next` eats the root after the drive, and
  /// then the name is lost at the end of the input
  lemma DiskRootLostAsWritten(normalize: bool, s: Bytes, d: byte, name: Bytes)
    requires s == [d, COLON, SEPARATOR] + name && IsAlphabetic(d)
    requires name != [] && name[0] != DOT
    requires forall k | 0 <= k < |name| :: !IsSep(name[k])
    ensures FrontListAsWritten(AtBeginning, normalize, s) == [Prefix(PrefixComponent(s[..2], Disk(d)))]
  {
    DiskRootFrontAsWritten(normalize, s, d, name);
    AfterPrefixNameLost(normalize, name);
  }

  /// `C:\x`: as written the first step reads the drive and skips the root
  lemma DiskRootFrontAsWritten(normalize: bool, s: Bytes, d: byte, name: Bytes)
    requires s == [d, COLON, SEPARATOR] + name && IsAlphabetic(d)
    requires name != [] && name[0] != DOT
    requires forall k | 0 <= k < |name| :: !IsSep(name[k])
    ensures ParseFrontAsWritten(AtBeginning, normalize, s) == Ok(name, Prefix(PrefixComponent(s[..2], Disk(d))))
  {
    DiskPrefixStep(s, d);
    var rest := s[2..];
    assert rest == [SEPARATOR] + name && rest[1..] == name;
    var drive := Prefix(PrefixComponent(s[..2], Disk(d)));
    assert Choice(AtBeginning, normalize, s) == Ok(rest, drive);
    assert SkipLenAsWritten(normalize, name, NUL) == 0;
    assert SkipLenAsWritten(normalize, rest, NUL) == 1;
  }

  /// `C:\x`, corrected: the drive, the root and the name
  lemma DiskRootCorrected(normalize: bool, s: Bytes, d: byte, name: Bytes)
    requires s == [d, COLON, SEPARATOR] + name && IsAlphabetic(d)
    requires name != [] && name != CURRENT_DIR
    requires forall k | 0 <= k < |name| :: !IsSep(name[k])
    ensures FrontList(AtBeginning, normalize, s)
         == [Prefix(PrefixComponent(s[..2], Disk(d))), RootDir, ClassifyIn(normalize, name)]
  {
    assert s[0] == d && s[1] == COLON && s[2] == SEPARATOR && s[3..] == name;
    DiskRootName(normalize, s, d, name);
  }

  lemma DiskRootName(normalize: bool, s: Bytes, d: byte, name: Bytes)
    requires |s| > 2 && s[0] == d && IsAlphabetic(d) && s[1] == COLON && s[2] == SEPARATOR && s[3..] == name
    requires name != [] && name != CURRENT_DIR
    requires forall k | 0 <= k < |name| :: !IsSep(name[k])
    ensures FrontList(AtBeginning, normalize, s)
         == [Prefix(PrefixComponent(s[..2], Disk(d))), RootDir, ClassifyIn(normalize, name)]
  {
    var rest := s[2..];
    assert rest == [SEPARATOR] + name;
    RootThenName(normalize, rest, name);
    DiskThenRest(normalize, s, d);
  }

  /// A path starting with a drive: the disk prefix, then what follows it
  lemma DiskThenRest(normalize: bool, s: Bytes, d: byte)
    requires |s| > 2 && s[0] == d && IsAlphabetic(d) && s[1] == COLON
    ensures FrontList(AtBeginning, normalize, s)
         == [Prefix(PrefixComponent(s[..2], Disk(d)))] + AfterPrefixSpec(normalize, s[2..])
  {
    DiskPrefixStep(s, d);
    FrontAgrees(normalize, s);
  }

  /// `\x` after a prefix: the root and the name
  lemma RootThenName(normalize: bool, rest: Bytes, name: Bytes)
    requires rest == [SEPARATOR] + name
    requires name != [] && name != CURRENT_DIR
    requires forall k | 0 <= k < |name| :: !IsSep(name[k])
    ensures AfterPrefixSpec(normalize, rest) == [RootDir, ClassifyIn(normalize, name)]
  {
    assert rest[1..] == name;
    NameOnly(normalize, name);
  }

  /// `\..` after a name: as written the normalising `move_to_next` takes the
  /// first `.` of `..` for a current directory and skips it, so the next
  /// component is the name `.`; the corrected skip stops at `..`
  lemma ParentAfterSepAsWritten(u: Bytes)
    requires |u| >= 4 && u[0] == SEPARATOR && u[1] == DOT && u[2] == DOT && u[3] == SEPARATOR
    ensures MoveToNextAsWritten(true, u) == Ok(u[2..], u[..2])
    ensures SkipLen(true, u) == 1
  {
    assert SkipLenAsWritten(true, u[2..], DOT) == 0;
    assert SkipLenAsWritten(true, u[1..], NUL) == 1 + SkipLenAsWritten(true, u[2..], DOT);
    assert SkipLenAsWritten(true, u, NUL) == 2;
    SkipLenStep(true, u);
    SkipLenStep(true, u[1..]);
  }

  /// `s` is `a\..\b`
  predicate ParentExample(s: Bytes, a: byte, b: byte) {
    |s| == 6 && s[0] == a && s[1] == SEPARATOR && s[2] == DOT && s[3] == DOT && s[4] == SEPARATOR && s[5] == b
  }

  /// The first component of `a\..\b`: `a`
  lemma ParentDirChoice(s: Bytes, a: byte, b: byte)
    requires ParentExample(s, a, b)
    requires !IsSep(a) && a != DOT
    ensures Choice(AtBeginning, true, s) == Ok(s[1..], Normal([a]))
  {
    NoPrefix(s);
    FirstMatchUnique(IsSep, s, 1);
    assert s[..1] == [a];
    assert CurDirIn(true, s).Fail?;
  }

  /// The first step on `a\..\b` as written: `a`, then the separator and
  /// the first `.` of `..` skipped
  lemma ParentDirFirstAsWritten(s: Bytes, a: byte, b: byte)
    requires ParentExample(s, a, b)
    requires !IsSep(a) && a != DOT
    ensures ParseFrontAsWritten(AtBeginning, true, s) == Ok(s[3..], Normal([a]))
  {
    ParentDirChoice(s, a, b);
    ParentAfterSepAsWritten(s[1..]);
    assert s[1..][2..] == s[3..];
  }

  /// The second step as written: the `.` left of `..` read as a name
  lemma DotNameAsWritten(v: Bytes, b: byte)
    requires v == [DOT, SEPARATOR, b] && !IsSep(b) && b != DOT
    ensures ParseFrontAsWritten(NotAtBeginning, true, v) == Ok([b], Normal(CURRENT_DIR))
  {
    FirstMatchUnique(IsSep, v, 1);
    assert v[..1] == CURRENT_DIR;
    assert Choice(NotAtBeginning, true, v) == Ok(v[1..], Normal(CURRENT_DIR));
    assert v[1..][1..] == [b];
    assert SkipLenAsWritten(true, [b], NUL) == 0;
    assert SkipLenAsWritten(true, v[1..], NUL) == 1;
  }

  lemma LastByteLostAsWritten(name: Bytes)
    requires |name| == 1 && !IsSep(name[0]) && name[0] != DOT
    ensures ParseFrontAsWritten(NotAtBeginning, true, name).Fail?
  {
    FirstMatchUnique(IsSep, name, 1);
    LastComponentLostAsWritten(NotAtBeginning, true, name);
  }

  /// The rest of `a\..\b` as written: the name `.`, then `b` lost
  lemma DotThenLostAsWritten(v: Bytes, b: byte)
    requires |v| == 3 && v[0] == DOT && v[1] == SEPARATOR && v[2] == b && !IsSep(b) && b != DOT
    ensures FrontListAsWritten(NotAtBeginning, true, v) == [Normal(CURRENT_DIR)]
  {
    assert v == [DOT, SEPARATOR, b];
    DotNameAsWritten(v, b);
    LastByteLostAsWritten([b]);
    var tail := FrontListAsWritten(NotAtBeginning, true, [b]);
    assert tail == [];
    FrontListAsWrittenStep(NotAtBeginning, true, v, [b], Normal(CURRENT_DIR));
    assert FrontListAsWritten(NotAtBeginning, true, v) == [Normal(CURRENT_DIR)] + tail;
  }

  /// `a\..\b` with one-byte names: as written the front parser lists `a`
  /// and a name `.`, and loses `b`
  lemma ParentDirLostAsWritten(s: Bytes, a: byte, b: byte)
    requires ParentExample(s, a, b)
    requires !IsSep(a) && a != DOT && !IsSep(b) && b != DOT
    ensures FrontListAsWritten(AtBeginning, true, s) == [Normal([a]), Normal(CURRENT_DIR)]
  {
    ParentDirFirstAsWritten(s, a, b);
    ParentDirRestAsWritten(s, b);
    FrontListAsWrittenStep(AtBeginning, true, s, s[3..], Normal([a]));
  }

  /// What is left of `a\..\b` after the first step, as written: the name `.`
  lemma ParentDirRestAsWritten(s: Bytes, b: byte)
    requires |s| == 6 && s[3] == DOT && s[4] == SEPARATOR && s[5] == b && !IsSep(b) && b != DOT
    ensures FrontListAsWritten(NotAtBeginning, true, s[3..]) == [Normal(CURRENT_DIR)]
  {
    DotThenLostAsWritten(s[3..], b);
  }

  /// `a\..\b`, corrected: `a`, `..`, `b`
  lemma ParentDirCorrected(s: Bytes, a: byte, b: byte)
    requires ParentExample(s, a, b)
    requires !IsSep(a) && a != DOT && !IsSep(b) && b != DOT
    ensures FrontList(AtBeginning, true, s) == [Normal([a]), ParentDir, Normal([b])]
  {
    NoPrefix(s);
    FrontAgrees(true, s);
    assert CurDirIn(true, s).Fail?;
    SegmentsOfExample(s, a, b);
  }

  lemma SegmentsOfExample(s: Bytes, a: byte, b: byte)
    requires ParentExample(s, a, b)
    requires !IsSep(a) && a != DOT && !IsSep(b) && b != DOT
    ensures Names(true, s) == [Normal([a]), ParentDir, Normal([b])]
  {
    FirstMatchUnique(IsSep, s, 1);
    FirstMatchUnique(IsSep, s[2..], 2);
    FirstMatchUnique(IsSep, s[5..], 1);
    SegmentsStep(true, s);
    SegmentsStep(true, s[2..]);
    SegmentsStep(true, s[5..]);
    assert s[..1] == [a] && s[2..][..2] == PARENT_DIR && s[5..] == [b];
    assert s[2..][3..] == s[5..];
    assert SegmentsIn(true, s) == [[a], PARENT_DIR, [b]];
    NamesOfCons(true, [b], []);
    NamesOfCons(true, PARENT_DIR, [[b]]);
    NamesOfCons(true, [a], [PARENT_DIR, [b]]);
  }

  /// `parse_back` as written skips from the front of its input, so it fails
  /// on every input that starts with a name
  lemma BackFailsOnNameAsWritten(state: State, normalize: bool, input: Bytes)
    requires input != [] && !IsSepIn(normalize, input[0]) && input[0] != DOT
    ensures ParseBackAsWritten(state, normalize, input).Fail?
  {
  }

  /// The corrected `parse_back` reads the last name and leaves what comes
  /// before it, unless at the beginning a prefix takes in the whole path
  lemma BackReadsLastName(state: State, normalize: bool, dir: Bytes, name: Bytes)
    requires dir != [] && IsSepIn(normalize, dir[|dir| - 1])
    requires Kept(normalize, name) && forall k | 0 <= k < |name| :: !IsSepIn(normalize, name[k])
    requires state == AtBeginning && StepPrefixComponent(dir + name).Ok? ==>
               |StepPrefixComponent(dir + name).value.raw| < |dir|
    ensures ParseBack(state, normalize, dir + name) == Ok(dir, ClassifyIn(normalize, name))
  {
    if state != AtBeginning {
      LastNameSegment(normalize, dir, name);
    } else {
      BeginReadsLastName(normalize, dir, name, StepPrefixComponent(dir + name));
    }
  }

  /// `BackReadsLastName` at the beginning
  lemma BeginReadsLastName(normalize: bool, dir: Bytes, name: Bytes, p: PResult<PrefixComponent>)
    requires dir != [] && IsSepIn(normalize, dir[|dir| - 1])
    requires Kept(normalize, name) && forall k | 0 <= k < |name| :: !IsSepIn(normalize, name[k])
    requires p == StepPrefixComponent(dir + name) && (p.Ok? ==> |p.value.raw| < |dir|)
    ensures BeginBack(normalize, dir + name) == Ok(dir, ClassifyIn(normalize, name))
  {
    if p.Fail? {
      NoPrefixLastName(normalize, dir, name);
    } else {
      var d := PrefixSplit(dir, name, p.value.raw, p.rest);
      PrefixThenLastName(normalize, dir + name, p.value, d, name);
    }
  }

  /// `BackReadsLastName` at the beginning of a path without a prefix
  lemma NoPrefixLastName(normalize: bool, dir: Bytes, name: Bytes)
    requires dir != [] && IsSepIn(normalize, dir[|dir| - 1])
    requires Kept(normalize, name) && forall k | 0 <= k < |name| :: !IsSepIn(normalize, name[k])
    requires StepPrefixComponent(dir + name).Fail?
    ensures BeginBack(normalize, dir + name) == Ok(dir, ClassifyIn(normalize, name))
  {
    BodyReadsLastName(normalize, dir, name);
  }

  /// A prefix that ends before the last separator of `dir` leaves the rest
  /// of `dir`, then the name
  lemma PrefixSplit(dir: Bytes, name: Bytes, raw: Bytes, rest: Bytes) returns (d: Bytes)
    requires raw + rest == dir + name && |raw| < |dir|
    ensures raw + d == dir && rest == d + name
    ensures d != [] && d[|d| - 1] == dir[|dir| - 1]
  {
    d := dir[|raw|..];
    assert raw == (raw + rest)[..|raw|] == (dir + name)[..|raw|] == dir[..|raw|];
    assert raw + d == dir;
    assert rest == (raw + rest)[|raw|..] == (dir + name)[|raw|..] == d + name;
  }

  /// At the beginning, after a prefix, the last name of what follows it
  lemma PrefixThenLastName(normalize: bool, input: Bytes, pc: PrefixComponent, d: Bytes, name: Bytes)
    requires StepPrefixComponent(input) == Ok(d + name, pc)
    requires d != [] && IsSepIn(normalize, d[|d| - 1])
    requires Kept(normalize, name) && forall k | 0 <= k < |name| :: !IsSepIn(normalize, name[k])
    ensures BeginBack(normalize, input) == Ok(pc.raw + d, ClassifyIn(normalize, name))
  {
    BodyReadsLastName(normalize, d, name);
  }

  /// What follows the prefix, read from the back, gives its last name
  lemma BodyReadsLastName(normalize: bool, dir: Bytes, name: Bytes)
    requires dir != [] && IsSepIn(normalize, dir[|dir| - 1])
    requires Kept(normalize, name) && forall k | 0 <= k < |name| :: !IsSepIn(normalize, name[k])
    ensures BodyBack(normalize, dir + name) == Ok(dir, ClassifyIn(normalize, name))
  {
    LastNameSegment(normalize, dir, name);
  }

  /// The last segment of a path ending with a separator and a kept name is
  /// that name
  lemma LastNameSegment(normalize: bool, dir: Bytes, name: Bytes)
    requires dir != [] && IsSepIn(normalize, dir[|dir| - 1])
    requires Kept(normalize, name) && forall k | 0 <= k < |name| :: !IsSepIn(normalize, name[k])
    ensures Stripped(normalize, dir + name) == dir + name
    ensures LastSegment(normalize, dir + name) == Ok(dir, ClassifyIn(normalize, name))
  {
    var s := dir + name;
    NameEndNotStripped(normalize, dir, name);
    NameIsLastSegment(normalize, dir, name);
    assert s[..|s| - |name|] == dir && s[|s| - |name|..] == name;
  }

  /// Nothing is stripped from the end of a path that ends with a kept name
  lemma NameEndNotStripped(normalize: bool, dir: Bytes, name: Bytes)
    requires dir != [] && IsSepIn(normalize, dir[|dir| - 1])
    requires Kept(normalize, name) && forall k | 0 <= k < |name| :: !IsSepIn(normalize, name[k])
    ensures Stripped(normalize, dir + name) == dir + name
  {
    var s := dir + name;
    assert s[|s| - 1] == name[|name| - 1];
    assert normalize && name[|name| - 1] == DOT ==> |name| >= 2 && s[|s| - 2] == name[|name| - 2];
    assert TrailingSkip(normalize, s) == 0;
  }

  /// The last segment of a path ending with a separator and a name is that
  /// name
  lemma NameIsLastSegment(normalize: bool, dir: Bytes, name: Bytes)
    requires dir != [] && IsSepIn(normalize, dir[|dir| - 1])
    requires forall k | 0 <= k < |name| :: !IsSepIn(normalize, name[k])
    ensures LastSegLen(normalize, dir + name) == |name|
  {
    var s := dir + name;
    assert forall k | |s| - |name| <= k < |s| :: s[k] == name[k - |dir|];
    if normalize {
      TrailingRunUnique(NotSep, s, |name|);
    } else {
      TrailingRunUnique(NotBackslash, s, |name|);
    }
  }

  /// `a\b`: as written `next_back` fails; corrected it reads `b`
  lemma BackAsWrittenExample(state: State, s: Bytes, a: byte, b: byte)
    requires s == [a, SEPARATOR, b] && !IsSep(a) && a != DOT && !IsSep(b) && b != DOT
    ensures ParseBackAsWritten(state, true, s).Fail?
    ensures ParseBack(state, true, s) == Ok([a, SEPARATOR], Normal([b]))
  {
    BackFailsOnNameAsWritten(state, true, s);
    assert s == [a, SEPARATOR] + [b];
    BackReadsLastName(state, true, [a, SEPARATOR], [b]);
  }
}
