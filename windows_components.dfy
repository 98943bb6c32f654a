/// `WindowsComponents`, the iterator over the components of a Windows path,
/// its queries about the prefix and the root, and the `try_from` readings of
/// a single component and of a prefix.
module WindowsComponentsModel {
  import opened ByteSeq
  import opened Combinators
  import opened WindowsComponentModel
  import opened WindowsGrammar
  import opened WindowsPathParser
  import WindowsPathParserProperties
  import opened WindowsStepGrammar
  import opened WindowsIncremental
  import opened WindowsIncrementalProperties

  /// The outcome of a `try_from`: a value, or the reason there is none
  datatype TryOutcome<T> = Parsed(value: T) | ParseError(msg: string)

  const NO_COMPONENT: string := "no component found"
  const MORE_THAN_ONE: string := "found more than one component"
  const MORE_THAN_PREFIX: string := "contains more than prefix"
  /// The prefix grammar's own failure (its wording is not modelled)
  const NOT_A_PREFIX: string := "not a prefix"

  /// Whether a parser made for `path` normalises its separators
  predicate Normalizes(path: Bytes) {
    !StartsWith(path, VERBATIM_START)
  }

  // ---------------------------------------------------------------------------
  // The bytes the queries look at

  /// The prefix a path starts with, as the incremental grammar reads it
  function LeadingPrefix(input: Bytes): Option<PrefixComponent> {
    match StepPrefixComponent(input)
    case Ok(_, pc) => Some(pc)
    case Fail => None
  }

  /// What follows the leading prefix, or the whole input without one
  function AfterLeadingPrefix(input: Bytes): (rest: Bytes)
    ensures LeadingPrefix(input).Some? ==> LeadingPrefix(input).value.raw + rest == input
    ensures LeadingPrefix(input).None? ==> rest == input
  {
    match StepPrefixComponent(input)
    case Ok(rest, _) => rest
    case Fail => input
  }

  predicate SepFirst(normalize: bool, s: Bytes) {
    s != [] && IsSepIn(normalize, s[0])
  }

  /// The next component is the root: from the beginning for a leading
  /// separator with no prefix, just past a prefix for a leading separator,
  /// and never further on
  predicate RootFirst(state: State, normalize: bool, input: Bytes) {
    match state
    case AtBeginning => LeadingPrefix(input).None? && SepFirst(normalize, input)
    case SeenPrefix => SepFirst(normalize, input)
    case NotAtBeginning => false
  }

  /// The next component is a prefix: only from the beginning, for a path
  /// that starts with one
  predicate PrefixFirst(state: State, input: Bytes) {
    state == AtBeginning && LeadingPrefix(input).Some?
  }

  /// A separator right after the leading prefix
  predicate RootAfterPrefix(state: State, normalize: bool, input: Bytes) {
    PrefixFirst(state, input) && SepFirst(normalize, AfterLeadingPrefix(input))
  }

  /// Drive prefixes, `C:` and `\\?\C:`, which need a separator to be rooted
  predicate IsDiskKind(p: WindowsPrefix) {
    p.Disk? || p.VerbatimDisk?
  }

  /// The kinds `has_any_verbatim_prefix` matches
  predicate AnyVerbatimKind(p: WindowsPrefix) {
    p.Verbatim? || p.UNC? || p.Disk?
  }

  // ---------------------------------------------------------------------------
  // Two steps of a copy of the parser

  /// The first two components a copy of the parser reads (`None` where
  /// `next_front` fails)
  function FrontTwo(state: State, normalize: bool, input: Bytes): (Option<WindowsComponent>, Option<WindowsComponent>) {
    match ParseFront(state, normalize, input)
    case Fail => (None, None)
    case Ok(rest, c) =>
      match ParseFront(NextState(c), normalize, rest)
      case Fail => (Some(c), None)
      case Ok(_, d) => (Some(c), Some(d))
  }

  /// The first component is the leading prefix exactly when the parser is at
  /// the beginning of a path that starts with one, and then the parser
  /// continues after it
  lemma FirstPrefix(state: State, normalize: bool, input: Bytes)
    ensures var r := ParseFront(state, normalize, input);
            (r.Ok? && r.value.Prefix?) <==> PrefixFirst(state, input)
    ensures PrefixFirst(state, input) ==>
              ParseFront(state, normalize, input) == Ok(AfterLeadingPrefix(input), Prefix(LeadingPrefix(input).value))
  {
    if PrefixFirst(state, input) {
      assert Choice(state, normalize, input) == BeginChoice(normalize, input);
    }
  }

  /// A file name is never the root
  lemma NameNotRoot(normalize: bool, input: Bytes)
    ensures FileNameIn(normalize, input).Ok? ==> FileNameIn(normalize, input).value != RootDir
  {
  }

  /// After a prefix (or at the start without one) the root is read exactly
  /// for a leading separator
  lemma AfterPrefixRoot(normalize: bool, input: Bytes)
    ensures var r := AfterPrefixChoice(normalize, input);
            (r.Ok? && r.value == RootDir) <==> SepFirst(normalize, input)
  {
    NameNotRoot(normalize, input);
  }

  /// The first component is the root exactly when `RootFirst` says so
  lemma FirstRoot(state: State, normalize: bool, input: Bytes)
    ensures var r := ParseFront(state, normalize, input);
            (r.Ok? && r.value == RootDir) <==> RootFirst(state, normalize, input)
  {
    var c := Choice(state, normalize, input);
    match state
    case NotAtBeginning =>
      NameNotRoot(normalize, input);
    case SeenPrefix =>
      assert c == AfterPrefixChoice(normalize, input);
      AfterPrefixRoot(normalize, input);
    case AtBeginning =>
      assert c == BeginChoice(normalize, input);
      AfterPrefixRoot(normalize, input);
  }

  /// What a copy of the parser reads in its first step
  lemma FrontTwoFirst(state: State, normalize: bool, input: Bytes)
    ensures var a := FrontTwo(state, normalize, input).0;
            && ((a.Some? && a.value.Prefix?) <==> PrefixFirst(state, input))
            && (a == Some(RootDir) <==> RootFirst(state, normalize, input))
            && (PrefixFirst(state, input) ==> a == Some(Prefix(LeadingPrefix(input).value)))
  {
    FirstPrefix(state, normalize, input);
    FirstRoot(state, normalize, input);
  }

  /// What it reads in its second step, after a prefix
  lemma FrontTwoSecond(state: State, normalize: bool, input: Bytes)
    requires PrefixFirst(state, input)
    ensures var b := FrontTwo(state, normalize, input).1;
            && (b == Some(RootDir) <==> SepFirst(normalize, AfterLeadingPrefix(input)))
            && (b.None? <==> AfterLeadingPrefix(input) == [])
  {
    FirstPrefix(state, normalize, input);
    var rest := AfterLeadingPrefix(input);
    FirstRoot(SeenPrefix, normalize, rest);
    assert NextState(Prefix(LeadingPrefix(input).value)) == SeenPrefix;
  }

  /// What a copy of the parser reads in two steps, in terms of the bytes
  lemma FrontTwoShape(state: State, normalize: bool, input: Bytes)
    ensures var (a, b) := FrontTwo(state, normalize, input);
            && ((a.Some? && a.value.Prefix?) <==> PrefixFirst(state, input))
            && (a == Some(RootDir) <==> RootFirst(state, normalize, input))
            && (PrefixFirst(state, input) ==> a == Some(Prefix(LeadingPrefix(input).value)))
            && (PrefixFirst(state, input) ==> (b == Some(RootDir) <==> SepFirst(normalize, AfterLeadingPrefix(input))))
            && (PrefixFirst(state, input) ==> (b.None? <==> AfterLeadingPrefix(input) == []))
  {
    FrontTwoFirst(state, normalize, input);
    if PrefixFirst(state, input) {
      FrontTwoSecond(state, normalize, input);
    }
  }

  // ---------------------------------------------------------------------------
  // The iterator

  /// The components of a path, read from either end
  class WindowsComponents {
    var parser: WindowsIncremental.Parser

    /// `new`: an iterator at the beginning of `path`
    constructor (path: Bytes)
      ensures fresh(parser) && parser.input == path && parser.state == AtBeginning
      ensures parser.normalize == Normalizes(path)
    {
      parser := new WindowsIncremental.Parser(path);
    }

    /// `as_bytes`: the part of the path not yet iterated over
    function AsBytes(): Bytes
      reads this, parser
    {
      parser.Remaining()
    }

    /// The first two components a copy of the parser reads
    function Two(): (Option<WindowsComponent>, Option<WindowsComponent>)
      reads this, parser
    {
      FrontTwo(parser.state, parser.normalize, parser.input)
    }

    /// `is_absolute`: a prefix and then a root, as in `C:\x` but not `C:x`
    /// or `\x`
    function IsAbsolute(): (b: bool)
      reads this, parser
      ensures b <==> RootAfterPrefix(parser.state, parser.normalize, parser.input)
    {
      FrontTwoShape(parser.state, parser.normalize, parser.input);
      match Two()
      case (Some(Prefix(_)), Some(RootDir)) => true
      case _ => false
    }

    /// `has_root`: a root first; or a drive prefix followed by a root; or
    /// any other prefix, which is rooted by itself
    function HasRoot(): (b: bool)
      reads this, parser
      ensures b <==> (RootFirst(parser.state, parser.normalize, parser.input)
                      || (PrefixFirst(parser.state, parser.input)
                          && (IsDiskKind(LeadingPrefix(parser.input).value.parsed)
                              ==> SepFirst(parser.normalize, AfterLeadingPrefix(parser.input)))))
    {
      FrontTwoShape(parser.state, parser.normalize, parser.input);
      match Two()
      case (Some(RootDir), _) => true
      case (Some(Prefix(p)), second) =>
        if p.parsed.Disk? || p.parsed.VerbatimDisk? then second == Some(RootDir) else true
      case _ => false
    }

    /// `peek_front`: what `next` would return, the iterator left as it is
    function PeekFront(): (r: Option<WindowsComponent>)
      reads this, parser
      ensures r.Some? <==> ParseFront(parser.state, parser.normalize, parser.input).Ok?
      ensures r.Some? ==> r.value == ParseFront(parser.state, parser.normalize, parser.input).value
    {
      parser.PeekFront()
    }

    /// `prefix`: the leading prefix, seen only from the beginning
    function Prefix(): (r: Option<PrefixComponent>)
      reads this, parser
      ensures r.Some? <==> PrefixFirst(parser.state, parser.input)
      ensures r.Some? ==> r == LeadingPrefix(parser.input) && r.value.raw + AfterLeadingPrefix(parser.input) == parser.input
    {
      FirstPrefix(parser.state, parser.normalize, parser.input);
      match PeekFront()
      case Some(Prefix(p)) => Some(p)
      case _ => None
    }

    /// `has_prefix`
    function HasPrefix(): (b: bool)
      reads this, parser
      ensures b <==> PrefixFirst(parser.state, parser.input)
    {
      Prefix().Some?
    }

    /// `prefix_len`: the number of bytes the prefix takes, 0 without one
    function PrefixLen(): (n: nat)
      reads this, parser
      ensures PrefixFirst(parser.state, parser.input) ==> n == |parser.input| - |AfterLeadingPrefix(parser.input)| && n > 0
      ensures !PrefixFirst(parser.state, parser.input) ==> n == 0
    {
      match Prefix()
      case Some(p) => |p.raw|
      case None => 0
    }

    /// `prefix_kind`
    function PrefixKind(): (r: Option<WindowsPrefix>)
      reads this, parser
      ensures r.Some? <==> PrefixFirst(parser.state, parser.input)
      ensures r.Some? ==> r.value == StepPrefix(parser.input).value
    {
      match Prefix()
      case Some(p) => Some(p.parsed)
      case None => None
    }

    /// `has_any_verbatim_prefix`, as the code matches: `Verbatim`, `UNC` or
    /// `Disk`
    function HasAnyVerbatimPrefix(): (b: bool)
      reads this, parser
      ensures b <==> PrefixFirst(parser.state, parser.input) && AnyVerbatimKind(StepPrefix(parser.input).value)
    {
      match PrefixKind()
      case Some(Verbatim(_)) => true
      case Some(UNC(_, _)) => true
      case Some(Disk(_)) => true
      case _ => false
    }

    /// `has_verbatim_prefix`
    function HasVerbatimPrefix(): (b: bool)
      reads this, parser
      ensures b <==> PrefixFirst(parser.state, parser.input) && StepPrefix(parser.input).value.Verbatim?
    {
      PrefixKind().Some? && PrefixKind().value.Verbatim?
    }

    /// `has_verbatim_unc_prefix`
    function HasVerbatimUNCPrefix(): (b: bool)
      reads this, parser
      ensures b <==> PrefixFirst(parser.state, parser.input) && StepPrefix(parser.input).value.VerbatimUNC?
    {
      PrefixKind().Some? && PrefixKind().value.VerbatimUNC?
    }

    /// `has_verbatim_disk_prefix`
    function HasVerbatimDiskPrefix(): (b: bool)
      reads this, parser
      ensures b <==> PrefixFirst(parser.state, parser.input) && StepPrefix(parser.input).value.VerbatimDisk?
    {
      PrefixKind().Some? && PrefixKind().value.VerbatimDisk?
    }

    /// `has_device_ns_prefix`
    function HasDeviceNSPrefix(): (b: bool)
      reads this, parser
      ensures b <==> PrefixFirst(parser.state, parser.input) && StepPrefix(parser.input).value.DeviceNS?
    {
      PrefixKind().Some? && PrefixKind().value.DeviceNS?
    }

    /// `has_unc_prefix`
    function HasUNCPrefix(): (b: bool)
      reads this, parser
      ensures b <==> PrefixFirst(parser.state, parser.input) && StepPrefix(parser.input).value.UNC?
    {
      PrefixKind().Some? && PrefixKind().value.UNC?
    }

    /// `has_disk_prefix`
    function HasDiskPrefix(): (b: bool)
      reads this, parser
      ensures b <==> PrefixFirst(parser.state, parser.input) && StepPrefix(parser.input).value.Disk?
    {
      PrefixKind().Some? && PrefixKind().value.Disk?
    }

    /// `has_physical_root`: a separator first, or right after the prefix
    function HasPhysicalRoot(): (b: bool)
      reads this, parser
      ensures b <==> (RootFirst(parser.state, parser.normalize, parser.input)
                      || RootAfterPrefix(parser.state, parser.normalize, parser.input))
    {
      FrontTwoShape(parser.state, parser.normalize, parser.input);
      match Two()
      case (Some(RootDir), _) => true
      case (Some(Prefix(_)), second) => second == Some(RootDir)
      case _ => false
    }

    /// `has_implicit_root`: a prefix other than a disk
    function HasImplicitRoot(): (b: bool)
      reads this, parser
      ensures b <==> PrefixFirst(parser.state, parser.input) && !StepPrefix(parser.input).value.Disk?
    {
      match PrefixKind()
      case Some(Disk(_)) => false
      case None => false
      case Some(_) => true
    }

    /// `is_only_disk`: a disk prefix with nothing after it
    function IsOnlyDisk(): (b: bool)
      reads this, parser
      ensures b <==> PrefixFirst(parser.state, parser.input) && StepPrefix(parser.input).value.Disk?
                     && AfterLeadingPrefix(parser.input) == []
    {
      FrontTwoShape(parser.state, parser.normalize, parser.input);
      HasDiskPrefix() && Two().1.None?
    }

    /// `next`: the next front component; the remaining bytes shrink to what
    /// the parser left, and past the first component the iterator is neither
    /// absolute nor sees a prefix
    method Next() returns (r: Option<WindowsComponent>)
      modifies parser
      ensures r.Some? <==> ParseFront(old(parser.state), parser.normalize, old(parser.input)).Ok?
      ensures r.Some? ==> r.value == ParseFront(old(parser.state), parser.normalize, old(parser.input)).value
      ensures r.Some? ==> AsBytes() == ParseFront(old(parser.state), parser.normalize, old(parser.input)).rest
      ensures r.Some? ==> |AsBytes()| < |old(AsBytes())| && IsSuffix(AsBytes(), old(AsBytes()))
      ensures r.Some? ==> parser.state == NextState(r.value)
      ensures r.Some? ==> !IsAbsolute() && !HasPrefix()
      ensures r.None? ==> AsBytes() == old(AsBytes()) && parser.state == old(parser.state)
    {
      r := parser.NextFront();
    }

    /// `next_back`: the last component; the remaining bytes shrink to the
    /// part before it
    method NextBack() returns (r: Option<WindowsComponent>)
      modifies parser
      ensures r.Some? <==> ParseBack(old(parser.state), parser.normalize, old(parser.input)).Ok?
      ensures r.Some? ==> r.value == ParseBack(old(parser.state), parser.normalize, old(parser.input)).value
      ensures r.Some? ==> AsBytes() == ParseBack(old(parser.state), parser.normalize, old(parser.input)).rest
      ensures r.Some? ==> |AsBytes()| < |old(AsBytes())| && StartsWith(old(AsBytes()), AsBytes())
      ensures r.None? ==> AsBytes() == old(AsBytes())
      ensures parser.state == old(parser.state)
    {
      r := parser.NextBack();
    }

    /// What `eq` and `cmp` compare: the components of a fresh iterator over
    /// the remaining bytes, which decides its separator mode anew
    function Fresh(): seq<WindowsComponent>
      reads this, parser
    {
      FrontList(AtBeginning, Normalizes(parser.input), parser.input)
    }

    /// `eq`: the remaining paths, read afresh, give equal components, which
    /// are those of the segment reading of each
    function Eq(other: WindowsComponents): (b: bool)
      reads this, parser, other, other.parser
      ensures parser.input == other.parser.input ==> b
      ensures b <==> SeqEq(SpecFront(Normalizes(parser.input), parser.input),
                           SpecFront(Normalizes(other.parser.input), other.parser.input))
    {
      FrontAgrees(Normalizes(parser.input), parser.input);
      FrontAgrees(Normalizes(other.parser.input), other.parser.input);
      SeqEq(Fresh(), other.Fresh())
    }

    /// `cmp`: the components read afresh, compared in order; `partial_cmp`
    /// is always `Some` of it
    function Cmp(other: WindowsComponents): (o: Ordering)
      reads this, parser, other, other.parser
      ensures o == Equal <==> Eq(other)
    {
      SeqCmp(Fresh(), other.Fresh())
    }
  }

  /// Swapping the iterators reverses their order
  lemma ComponentsCmpAntisymmetric(a: WindowsComponents, b: WindowsComponents)
    ensures a.Cmp(b) == b.Cmp(a).Reverse()
  {
    SeqCmpAntisymmetric(a.Fresh(), b.Fresh());
    SeqCmpAntisymmetric(b.Fresh(), a.Fresh());
  }

  // ---------------------------------------------------------------------------
  // Roots: physical, implicit, and what `has_root` makes of them

  /// `has_root` is a physical root, or an implicit one from any prefix that
  /// is not a drive
  lemma HasRootSplits(wc: WindowsComponents)
    ensures wc.HasRoot() <==> wc.HasPhysicalRoot() || (wc.HasImplicitRoot() && !wc.HasVerbatimDiskPrefix())
  {
  }

  /// `\\?\C:` alone: `has_implicit_root` holds (the prefix is not `Disk`)
  /// while `has_root` does not (it treats `VerbatimDisk` like `Disk`)
  lemma VerbatimDiskAloneNotRooted(wc: WindowsComponents)
    requires PrefixFirst(wc.parser.state, wc.parser.input)
    requires StepPrefix(wc.parser.input).value.VerbatimDisk?
    requires AfterLeadingPrefix(wc.parser.input) == []
    ensures wc.HasImplicitRoot() && !wc.HasRoot() && !wc.HasPhysicalRoot()
  {
  }

  /// `has_any_verbatim_prefix` agrees with `is_verbatim` only on `Verbatim`
  /// and `DeviceNS`: it leaves out `VerbatimUNC` and `VerbatimDisk` and takes
  /// in `UNC` and `Disk`
  lemma AnyVerbatimVersusIsVerbatim(p: WindowsPrefix)
    ensures AnyVerbatimKind(p) == IsVerbatim(p) <==> p.Verbatim? || p.DeviceNS?
  {
  }

  /// `\\?\C:` is a verbatim-disk prefix and nothing more
  lemma VerbatimDiskExample(s: Bytes)
    requires s == VERBATIM_START + [67, COLON]
    ensures LeadingPrefix(s) == Some(PrefixComponent(s, VerbatimDisk(67)))
    ensures AfterLeadingPrefix(s) == []
  {
    assert VerbatimAt(s) && |s| == 6 && s[4] == 67 && s[5] == COLON && IsAlphabetic(67);
    assert StepVerbatimUNC(s).Fail?;
    AnyOfSix(StepVerbatimUNC, PrefixVerbatimDisk, StepVerbatim, StepDeviceNS, StepUNC, PrefixDisk, s);
    assert s[6..] == [] && s[..6] == s;
  }

  // ---------------------------------------------------------------------------
  // `WindowsComponent::try_from`

  /// `try_from`: the first component of a fresh iterator, provided a second
  /// call to `next` finds nothing
  function TryFrom(path: Bytes): (r: TryOutcome<WindowsComponent>)
    ensures r.Parsed? <==> |SpecFront(Normalizes(path), path)| == 1
    ensures r.Parsed? ==> SpecFront(Normalizes(path), path) == [r.value]
    ensures r.ParseError? ==> r.msg == if SpecFront(Normalizes(path), path) == [] then NO_COMPONENT else MORE_THAN_ONE
  {
    FrontAgrees(Normalizes(path), path);
    match ParseFront(AtBeginning, Normalizes(path), path)
    case Fail => ParseError(NO_COMPONENT)
    case Ok(rest, c) =>
      if ParseFront(NextState(c), Normalizes(path), rest).Ok? then ParseError(MORE_THAN_ONE) else Parsed(c)
  }

  /// `try_from` as written: both calls to `next` go through the as-written
  /// `parse_front`, whose skip after a component fails unless a separator or
  /// `.` follows it. What it yields is the component the grammar reads first
  function TryFromAsWritten(path: Bytes): (r: TryOutcome<WindowsComponent>)
    ensures r.Parsed? ==> Choice(AtBeginning, Normalizes(path), path).Ok?
    ensures r.Parsed? ==> r.value == Choice(AtBeginning, Normalizes(path), path).value
  {
    match ParseFrontAsWritten(AtBeginning, Normalizes(path), path)
    case Fail => ParseError(NO_COMPONENT)
    case Ok(rest, c) =>
      if ParseFrontAsWritten(NextState(c), Normalizes(path), rest).Ok? then ParseError(MORE_THAN_ONE) else Parsed(c)
  }

  /// `c:` as written: the skip after the drive finds nothing, so no component
  /// is found, where `TryFrom` gives the disk prefix
  lemma TryFromDriveAsWritten(path: Bytes, d: byte)
    requires path == [d, COLON] && IsAlphabetic(d)
    ensures TryFromAsWritten(path) == ParseError(NO_COMPONENT)
    ensures TryFrom(path).Parsed? && TryFrom(path).value.Prefix?
  {
    DiskPrefixStep(path, d);
    assert path[2..] == [];
    assert SkipLenAsWritten(Normalizes(path), [], NUL) == 0;
    TryFromDrive(path, d);
  }

  /// A separator with no second separator after it starts no prefix
  lemma NoPrefixAtLoneSep(s: Bytes)
    requires s != [] && IsSep(s[0]) && (|s| < 2 || !IsSep(s[1]))
    ensures StepPrefixComponent(s).Fail?
  {
    AnyOfSix(StepVerbatimUNC, PrefixVerbatimDisk, StepVerbatim, StepDeviceNS, StepUNC, PrefixDisk, s);
  }

  /// `dir\`: one name, the trailing separator ignored
  lemma TryFromNameThenSeparator(name: Bytes, path: Bytes)
    requires name != [] && name != CURRENT_DIR && (|name| < 2 || name[1] != COLON)
    requires forall k | 0 <= k < |name| :: !IsSep(name[k])
    requires path == name + [SEPARATOR]
    ensures TryFrom(path) == Parsed(ClassifyIn(true, name))
  {
    assert Normalizes(path) by {
      assert !IsSep(path[0]);
    }
    NoPrefix(path);
    assert CurDirIn(true, path).Fail?;
    NameOnly(true, name);
    FirstMatchUnique(IsSep, path, |name|);
    assert SegLenIn(true, path) == |name| && path[..|name|] == name;
    NameFirst(true, path);
    assert path[|name|..] == [SEPARATOR];
    NamesAtSep(true, [SEPARATOR]);
    assert [SEPARATOR][1..] == [];
    NamesOfSingle(true, []);
    assert SegmentsIn(true, []) == [[]];
  }

  /// `\file`: a root and a name are two components
  lemma TryFromRootThenName(name: Bytes, path: Bytes)
    requires name != [] && name != CURRENT_DIR && forall k | 0 <= k < |name| :: !IsSep(name[k])
    requires path == [SEPARATOR] + name
    ensures TryFrom(path) == ParseError(MORE_THAN_ONE)
  {
    NoPrefixAtLoneSep(path);
    assert path[1..] == name;
    var normalize := Normalizes(path);
    var cs := SpecFront(normalize, path);
    assert cs == [RootDir] + Names(normalize, name);
    NamesOfFirstSegment(normalize, name);
  }

  /// A path read in one separator mode has at least one name when it starts
  /// with a kept segment
  lemma NamesOfFirstSegment(normalize: bool, s: Bytes)
    requires s != [] && !IsSepIn(normalize, s[0]) && !(normalize && CurDirIn(normalize, s).Ok?)
    ensures |Names(normalize, s)| >= 1
  {
    WindowsIncrementalProperties.DotSegment(normalize, s);
    NameFirst(normalize, s);
  }

  /// `c:`: the drive prefix alone, its letter kept as written
  lemma TryFromDrive(path: Bytes, d: byte)
    requires path == [d, COLON] && IsAlphabetic(d)
    ensures TryFrom(path) == Parsed(WindowsComponent.Prefix(PrefixComponent(path, Disk(d))))
  {
    AnyOfSix(StepVerbatimUNC, PrefixVerbatimDisk, StepVerbatim, StepDeviceNS, StepUNC, PrefixDisk, path);
    assert path[2..] == [] && path[..2] == path;
    assert Normalizes(path);
  }

  // ---------------------------------------------------------------------------
  // `WindowsPrefixComponent::try_from`

  /// `try_from` for a prefix: the whole-path prefix parser must consume all
  /// of the input; the component's bytes are then the input, as long as its
  /// kind says
  function PrefixTryFrom(bytes: Bytes): (r: TryOutcome<PrefixComponent>)
    ensures r.Parsed? <==> ParsePrefix(bytes).Ok? && ParsePrefix(bytes).rest == []
    ensures r.Parsed? ==> r.value.raw == bytes && r.value.parsed == ParsePrefix(bytes).value
    ensures r.Parsed? ==> |bytes| == PrefixLen(r.value.parsed)
    ensures r.ParseError? ==> (r.msg == MORE_THAN_PREFIX <==> ParsePrefix(bytes).Ok?)
  {
    match PrefixComponentParse(bytes)
    case Fail => ParseError(NOT_A_PREFIX)
    case Ok(rest, p) =>
      if rest != [] then ParseError(MORE_THAN_PREFIX)
      else
        assert p.raw == bytes by { assert p.raw + rest == bytes; }
        Parsed(p)
  }

  /// `C:\path` is more than a prefix
  lemma PrefixTryFromDrivePath(s: Bytes, d: byte, path: Bytes)
    requires IsAlphabetic(d) && path != [] && s == [d, COLON] + path
    ensures PrefixTryFrom(s) == ParseError(MORE_THAN_PREFIX)
  {
    WindowsPathParserProperties.DriveIsPrefix(s, d);
    assert s[2..] == path;
  }

  /// `C:` is a prefix, two bytes long
  lemma PrefixTryFromDrive(s: Bytes, d: byte)
    requires IsAlphabetic(d) && s == [d, COLON]
    ensures PrefixTryFrom(s) == Parsed(PrefixComponent(s, Disk(d)))
  {
    WindowsPathParserProperties.DriveIsPrefix(s, d);
    assert s[2..] == [];
  }

  /// `hello` is not a prefix: no prefix starts with a byte that is not a
  /// separator unless a `:` follows it
  lemma PrefixTryFromName(s: Bytes)
    requires s != [] && !IsSep(s[0]) && (|s| < 2 || s[1] != COLON)
    ensures PrefixTryFrom(s) == ParseError(NOT_A_PREFIX)
  {
    AnyOfSix(PrefixVerbatimUNC, PrefixVerbatimDisk, PrefixVerbatim, PrefixDeviceNS, PrefixUNC, PrefixDisk, s);
  }
}
