/// The grammar of the incremental Windows parser: the leaf parsers built for
/// one separator mode (either separator when normalising, only `\` in a
/// verbatim path), and the prefix grammar it reads at the beginning, whose
/// names run up to the next separator.
module WindowsStepGrammar {
  import opened ByteSeq
  import opened Combinators
  import opened WindowsComponentModel
  import opened WindowsGrammar

  /// `\`, the only separator of a verbatim path
  predicate IsBackslash(b: byte) { b == SEPARATOR }

  predicate NotBackslash(b: byte) { b != SEPARATOR }

  /// `is_separator`: `\` or `/` when normalising, `\` alone otherwise
  predicate IsSepIn(normalize: bool, b: byte) {
    b == SEPARATOR || (normalize && b == ALT_SEPARATOR)
  }

  /// `verbatim_separator`: one `\`
  function VerbatimSeparator(input: Bytes): (r: PResult<()>)
    ensures r.Ok? <==> |input| > 0 && input[0] == SEPARATOR
    ensures r.Ok? ==> r.rest == input[1..]
  {
    match Byte(SEPARATOR, input)
    case Ok(rest, _) => Ok(rest, ())
    case Fail => Fail
  }

  /// The `separator` the parsers of one mode share
  function SepIn(normalize: bool, input: Bytes): (r: PResult<()>)
    ensures r.Ok? <==> |input| > 0 && IsSepIn(normalize, input[0])
    ensures r.Ok? ==> r.rest == input[1..]
  {
    if normalize then ParseSeparator(input) else VerbatimSeparator(input)
  }

  /// Length of the run of non-separators at the start of `s`
  function SegLenIn(normalize: bool, s: Bytes): (n: nat)
    ensures n <= |s|
    ensures forall k | 0 <= k < n :: !IsSepIn(normalize, s[k])
    ensures n < |s| ==> IsSepIn(normalize, s[n])
  {
    if normalize then FirstMatch(IsSep, s) else FirstMatch(IsBackslash, s)
  }

  /// `normal_bytes(sep)`: `take_while(not(sep))`, every byte up to the next
  /// separator, whatever it is; fails when there is none.
  function NormalBytesIn(normalize: bool, input: Bytes): (r: PResult<Bytes>)
    ensures r.Ok? <==> |input| > 0 && !IsSepIn(normalize, input[0])
    ensures r.Ok? ==> r.value == input[..SegLenIn(normalize, input)]
    ensures r.Ok? ==> r.rest == input[SegLenIn(normalize, input)..]
  {
    var p := s => Not(t => SepIn(normalize, t), s);
    assert forall s :: p(s).Ok? <==> !(|s| > 0 && IsSepIn(normalize, s[0])) by {
      forall s
        ensures p(s).Ok? <==> !(|s| > 0 && IsSepIn(normalize, s[0]))
      {
        assert p(s) == Not(t => SepIn(normalize, t), s);
      }
    }
    RunOfNonSeps(p, normalize, input);
    TakeWhile(p, input)
  }

  /// Stepping over the positions where no separator starts stops at the
  /// first separator
  lemma RunOfNonSeps(p: Parser<()>, normalize: bool, input: Bytes)
    requires forall s :: p(s).Ok? <==> !(|s| > 0 && IsSepIn(normalize, s[0]))
    ensures TakeWhileLen(p, input) == SegLenIn(normalize, input)
  {
    var n := TakeWhileLen(p, input);
    assert forall k | 0 <= k < n :: input[k..][0] == input[k];
    if normalize {
      FirstMatchUnique(IsSep, input, n);
    } else {
      FirstMatchUnique(IsBackslash, input, n);
    }
  }

  /// `root_dir(sep)`
  function RootDirIn(normalize: bool, input: Bytes): (r: PResult<WindowsComponent>)
    ensures r.Ok? <==> |input| > 0 && IsSepIn(normalize, input[0])
    ensures r.Ok? ==> r.rest == input[1..] && r.value == RootDir
  {
    match SepIn(normalize, input)
    case Ok(rest, _) => Ok(rest, RootDir)
    case Fail => Fail
  }

  /// `any_of!(empty, peek(sep))`
  function AtEndIn(normalize: bool, input: Bytes): (r: PResult<()>)
    ensures r.Ok? <==> input == [] || IsSepIn(normalize, input[0])
    ensures r.Ok? ==> r.rest == input
  {
    AnyOfTwo(Empty, s => Peek(t => SepIn(normalize, t), s), input);
    AnyOf([Empty, s => Peek(t => SepIn(normalize, t), s)], input)
  }

  /// `cur_dir(sep)`: a `.` that ends its component
  function CurDirIn(normalize: bool, input: Bytes): (r: PResult<WindowsComponent>)
    ensures r.Ok? <==> |input| > 0 && input[0] == DOT && (|input| == 1 || IsSepIn(normalize, input[1]))
    ensures r.Ok? ==> r.rest == input[1..] && r.value == CurDir
  {
    match Suffixed(s => BytesTag(CURRENT_DIR, s), s => AtEndIn(normalize, s), input)
    case Ok(rest, _) => Ok(rest, CurDir)
    case Fail => Fail
  }

  /// `parent_dir(sep)`: a `..` that ends its component
  function ParentDirIn(normalize: bool, input: Bytes): (r: PResult<WindowsComponent>)
    ensures r.Ok? <==> |input| > 1 && input[0] == DOT && input[1] == DOT && (|input| == 2 || IsSepIn(normalize, input[2]))
    ensures r.Ok? ==> r.rest == input[2..] && r.value == ParentDir
  {
    match Suffixed(s => BytesTag(PARENT_DIR, s), s => AtEndIn(normalize, s), input)
    case Ok(rest, _) => Ok(rest, ParentDir)
    case Fail => Fail
  }

  /// `normal(sep)`
  function NormalIn(normalize: bool, input: Bytes): (r: PResult<WindowsComponent>)
    ensures r.Ok? <==> |input| > 0 && !IsSepIn(normalize, input[0])
    ensures r.Ok? ==> r.value == Normal(input[..SegLenIn(normalize, input)])
    ensures r.Ok? ==> r.rest == input[SegLenIn(normalize, input)..]
  {
    match NormalBytesIn(normalize, input)
    case Ok(rest, name) => Ok(rest, Normal(name))
    case Fail => Fail
  }

  /// What a whole segment denotes to `filename`: `..` always, `.` only in a
  /// verbatim path; everything else is a name (a normalising parser never
  /// asks `filename` about a lone `.` it can skip).
  function ClassifyIn(normalize: bool, seg: Bytes): WindowsComponent {
    if seg == PARENT_DIR then ParentDir
    else if seg == CURRENT_DIR && !normalize then CurDir
    else Normal(seg)
  }

  /// A segment classified as a name is that name
  lemma ClassifiedName(normalize: bool, seg: Bytes, name: Bytes)
    requires ClassifyIn(normalize, seg) == Normal(name)
    ensures seg == name
  {
    if seg != PARENT_DIR && !(seg == CURRENT_DIR && !normalize) {
      assert ClassifyIn(normalize, seg) == Normal(seg);
    }
  }

  /// `filename`: `any_of!(parent_dir, normal)` when normalising,
  /// `any_of!(parent_dir, cur_dir, normal)` otherwise. It reads the whole
  /// segment up to the next separator and classifies it.
  function FileNameIn(normalize: bool, input: Bytes): (r: PResult<WindowsComponent>)
    ensures r.Ok? <==> |input| > 0 && !IsSepIn(normalize, input[0])
    ensures r.Ok? ==> r.rest == input[SegLenIn(normalize, input)..]
    ensures r.Ok? ==> r.value == ClassifyIn(normalize, input[..SegLenIn(normalize, input)])
    ensures r.Ok? ==> |r.rest| < |input| && IsSuffix(r.rest, input) && !r.value.Prefix?
  {
    var parent := s => ParentDirIn(normalize, s);
    var cur := s => CurDirIn(normalize, s);
    var normal := s => NormalIn(normalize, s);
    var n := SegLenIn(normalize, input);
    assert n >= 2 ==> input[..n] == PARENT_DIR ==> input[0] == DOT && input[1] == DOT && n == 2;
    assert n >= 1 ==> input[..n] == CURRENT_DIR ==> input[0] == DOT && n == 1;
    if normalize then
      AnyOfTwo(parent, normal, input);
      AnyOf([parent, normal], input)
    else
      AnyOfThree(parent, cur, normal, input);
      AnyOf([parent, cur, normal], input)
  }

  /// `maybe(sep)`, then `maybe(normal_bytes(sep))` defaulting to an empty
  /// share: after a separator, the bytes up to the next one
  function ShareIn(normalize: bool, input: Bytes): (r: PResult<Bytes>)
    ensures r.Ok?
    ensures input == [] ==> r.value == [] && r.rest == []
    ensures input != [] && IsSepIn(normalize, input[0]) ==>
              r.value == input[1..][..SegLenIn(normalize, input[1..])] && r.rest == input[1..][SegLenIn(normalize, input[1..])..]
    ensures IsSuffix(r.rest, input)
  {
    var i1 := Maybe(s => SepIn(normalize, s), input).rest;
    var share := Maybe(s => NormalBytesIn(normalize, s), i1);
    assert IsSuffix(i1, input);
    assert IsSuffix(share.rest, i1);
    SuffixTrans(share.rest, i1, input);
    Ok(share.rest, if share.value.Some? then share.value.value else [])
  }

  /// `normal_bytes(sep)`, `maybe(sep)`, `maybe(normal_bytes(sep))`: a
  /// server, then a share after one separator, or an empty share
  function ServerShareIn(normalize: bool, input: Bytes): (r: PResult<(Bytes, Bytes)>)
    ensures r.Ok? <==> |input| > 0 && !IsSepIn(normalize, input[0])
    ensures r.Ok? ==> r.value.0 == input[..SegLenIn(normalize, input)]
    ensures r.Ok? ==> r.value.1 == ShareIn(normalize, input[SegLenIn(normalize, input)..]).value
    ensures r.Ok? ==> r.rest == ShareIn(normalize, input[SegLenIn(normalize, input)..]).rest
    ensures r.Ok? ==> |r.rest| < |input| && IsSuffix(r.rest, input)
  {
    match NormalBytesIn(normalize, input)
    case Fail => Fail
    case Ok(i1, server) =>
      var share := ShareIn(normalize, i1);
      SuffixTrans(share.rest, i1, input);
      Ok(share.rest, (server, share.value))
  }

  /// The separator mode of the prefix grammar: only `\` after exactly
  /// `\\?\`, either separator otherwise
  predicate AnySepAt(input: Bytes) {
    !StartsWith(input, VERBATIM_START)
  }

  /// `prefix_verbatim_unc`: `\\?\UNC\server\share`, the separators after
  /// `UNC` in the mode `AnySepAt` picks
  function StepVerbatimUNC(input: Bytes): (r: PResult<WindowsPrefix>)
    ensures r.Ok? <==> VerbatimAt(input) && |input| > 8 && input[4] == UNC_TAG[0] && input[5] == UNC_TAG[1]
                       && input[6] == UNC_TAG[2] && IsSepIn(AnySepAt(input), input[7]) && !IsSepIn(AnySepAt(input), input[8])
    ensures r.Ok? ==> r.rest == ServerShareIn(AnySepAt(input), input[8..]).rest
    ensures r.Ok? ==> r.value == VerbatimUNC(ServerShareIn(AnySepAt(input), input[8..]).value.0,
                                             ServerShareIn(AnySepAt(input), input[8..]).value.1)
    ensures r.Ok? ==> |r.rest| < |input| && IsSuffix(r.rest, input)
  {
    var anySep := AnySepAt(input);
    match ParseVerbatim(input)
    case Fail => Fail
    case Ok(i1, _) =>
      match ParseUNCTag(i1)
      case Fail => Fail
      case Ok(i2, _) =>
        match SepIn(anySep, i2)
        case Fail => Fail
        case Ok(i3, _) =>
          assert i3 == input[8..];
          match ServerShareIn(anySep, i3)
          case Fail => Fail
          case Ok(rest, (x, y)) =>
            SuffixTrans(rest, i3, input);
            Ok(rest, VerbatimUNC(x, y))
  }

  /// `any_of!(normal_bytes(sep), map(peek(sep), |_| b""))`: the name after
  /// `\\?\`, blank when a separator follows at once
  function VerbatimName(anySep: bool, input: Bytes): (r: PResult<Bytes>)
    ensures r.Ok? <==> input != []
    ensures r.Ok? ==> r.value == input[..SegLenIn(anySep, input)] && r.rest == input[SegLenIn(anySep, input)..]
  {
    var name := s => NormalBytesIn(anySep, s);
    var blank := s => Map(t => Peek(u => SepIn(anySep, u), t), _ => [], s);
    AnyOfTwo(name, blank, input);
    AnyOf([name, blank], input)
  }

  /// `prefix_verbatim`: `\\?\name`, where the name runs to the next
  /// separator of the mode `AnySepAt` picks and may be blank before one;
  /// `\\?\C:` and `\\?\UNC\..` are left to their own forms.
  function StepVerbatim(input: Bytes): (r: PResult<WindowsPrefix>)
    ensures r.Ok? <==> VerbatimAt(input) && |input| > 4 && PrefixVerbatimDisk(input).Fail? && StepVerbatimUNC(input).Fail?
    ensures r.Ok? ==> var n := SegLenIn(AnySepAt(input), input[4..]);
                      r.value == Verbatim(input[4..][..n]) && r.rest == input[4..][n..]
    ensures r.Ok? ==> |r.rest| < |input| && IsSuffix(r.rest, input)
  {
    match Not(PrefixVerbatimDisk, input)
    case Fail => Fail
    case Ok(_, _) =>
      match Not(StepVerbatimUNC, input)
      case Fail => Fail
      case Ok(_, _) =>
        match ParseVerbatim(input)
        case Fail => Fail
        case Ok(i1, _) =>
          match VerbatimName(AnySepAt(input), i1)
          case Fail => Fail
          case Ok(rest, value) => Ok(rest, Verbatim(value))
  }

  /// `prefix_device_ns`: `\\.\device`, the device running to the next
  /// separator
  function StepDeviceNS(input: Bytes): (r: PResult<WindowsPrefix>)
    ensures r.Ok? <==> DeviceAt(input) && |input| > 4 && !IsSep(input[4])
    ensures r.Ok? ==> var n := SegLenIn(true, input[4..]);
                      r.value == DeviceNS(input[4..][..n]) && r.rest == input[4..][n..]
    ensures r.Ok? ==> |r.rest| < |input| && IsSuffix(r.rest, input)
  {
    match ParseDeviceStart(input)
    case Fail => Fail
    case Ok(i1, _) =>
      match NormalBytesIn(true, i1)
      case Fail => Fail
      case Ok(rest, x) => Ok(rest, DeviceNS(x))
  }

  /// `prefix_unc`: `\\server\share`, either separator throughout
  function StepUNC(input: Bytes): (r: PResult<WindowsPrefix>)
    ensures r.Ok? <==> |input| > 2 && IsSep(input[0]) && IsSep(input[1]) && !IsSep(input[2])
    ensures r.Ok? ==> r.rest == ServerShareIn(true, input[2..]).rest
    ensures r.Ok? ==> r.value == UNC(ServerShareIn(true, input[2..]).value.0, ServerShareIn(true, input[2..]).value.1)
    ensures r.Ok? ==> |r.rest| < |input| && IsSuffix(r.rest, input)
  {
    match ParseSeparator(input)
    case Fail => Fail
    case Ok(i1, _) =>
      match ParseSeparator(i1)
      case Fail => Fail
      case Ok(i2, _) =>
        assert i2 == input[2..];
        match ServerShareIn(true, i2)
        case Fail => Fail
        case Ok(rest, (x, y)) =>
          SuffixTrans(rest, i2, input);
          Ok(rest, UNC(x, y))
  }

  /// `prefix`: the six forms, most specific first
  function StepPrefix(input: Bytes): (r: PResult<WindowsPrefix>)
    ensures r.Ok? ==> |r.rest| < |input| && IsSuffix(r.rest, input)
  {
    AnyOfSix(StepVerbatimUNC, PrefixVerbatimDisk, StepVerbatim, StepDeviceNS, StepUNC, PrefixDisk, input);
    AnyOf([StepVerbatimUNC, PrefixVerbatimDisk, StepVerbatim, StepDeviceNS, StepUNC, PrefixDisk], input)
  }

  /// Every verbatim or device prefix also starts like a UNC one, so `prefix`
  /// succeeds exactly when the UNC or the disk form does
  lemma StepPrefixOk(input: Bytes)
    ensures StepPrefix(input).Ok? <==> StepUNC(input).Ok? || PrefixDisk(input).Ok?
  {
    AnyOfSix(StepVerbatimUNC, PrefixVerbatimDisk, StepVerbatim, StepDeviceNS, StepUNC, PrefixDisk, input);
    VerbatimStartsLikeUNC(input);
    DeviceStartsLikeUNC(input);
  }

  /// Where the UNC form fails, `prefix` is the disk form
  lemma StepPrefixNotUNC(input: Bytes)
    requires StepUNC(input).Fail?
    ensures StepPrefix(input) == PrefixDisk(input)
  {
    AnyOfSix(StepVerbatimUNC, PrefixVerbatimDisk, StepVerbatim, StepDeviceNS, StepUNC, PrefixDisk, input);
    VerbatimStartsLikeUNC(input);
    DeviceStartsLikeUNC(input);
  }

  lemma VerbatimStartsLikeUNC(input: Bytes)
    ensures StepVerbatimUNC(input).Ok? || PrefixVerbatimDisk(input).Ok? || StepVerbatim(input).Ok? ==> StepUNC(input).Ok?
  {
  }

  lemma DeviceStartsLikeUNC(input: Bytes)
    ensures StepDeviceNS(input).Ok? ==> StepUNC(input).Ok?
  {
  }

  /// `prefix_component`: the prefix together with the bytes it was read from
  function StepPrefixComponent(input: Bytes): (r: PResult<PrefixComponent>)
    ensures r.Ok? <==> StepPrefix(input).Ok?
    ensures r.Ok? ==> r.rest == StepPrefix(input).rest && r.value.parsed == StepPrefix(input).value
    ensures r.Ok? ==> r.value.raw + r.rest == input && r.value.raw != []
  {
    match StepPrefix(input)
    case Fail => Fail
    case Ok(rest, parsed) =>
      var raw := input[..|input| - |rest|];
      assert raw + rest == input;
      Ok(rest, PrefixComponent(raw, parsed))
  }
}
