/// The leaf parsers and the prefix grammar of the whole-path Windows parser:
/// separators (`\` and `/` alike), root directory, `.`, `..`, normal names,
/// and the six prefix forms.
module WindowsGrammar {
  import opened ByteSeq
  import opened Combinators
  import opened WindowsComponentModel

  /// Either separator
  predicate IsSep(b: byte) { b == SEPARATOR || b == ALT_SEPARATOR }

  predicate NotSep(b: byte) { !IsSep(b) }

  /// `separator`: one `\` or one `/`
  function ParseSeparator(input: Bytes): (r: PResult<()>)
    ensures r.Ok? <==> |input| > 0 && IsSep(input[0])
    ensures r.Ok? ==> r.rest == input[1..]
  {
    AnyOfTwo(s => Byte(SEPARATOR, s), s => Byte(ALT_SEPARATOR, s), input);
    match AnyOf([s => Byte(SEPARATOR, s), s => Byte(ALT_SEPARATOR, s)], input)
    case Ok(rest, _) => Ok(rest, ())
    case Fail => Fail
  }

  /// `root_dir`: a separator read as the root
  function ParseRootDir(input: Bytes): (r: PResult<WindowsComponent>)
    ensures r.Ok? <==> |input| > 0 && IsSep(input[0])
    ensures r.Ok? ==> r.rest == input[1..] && r.value == RootDir
  {
    match ParseSeparator(input)
    case Ok(rest, _) => Ok(rest, RootDir)
    case Fail => Fail
  }

  /// `any_of!(empty, peek(separator))`: the input is at the end of a
  /// component; nothing is consumed.
  function AtComponentEnd(input: Bytes): (r: PResult<()>)
    ensures r.Ok? <==> input == [] || IsSep(input[0])
    ensures r.Ok? ==> r.rest == input
  {
    AnyOfTwo(Empty, s => Peek(ParseSeparator, s), input);
    AnyOf([Empty, s => Peek(ParseSeparator, s)], input)
  }

  /// `cur_dir`: a `.` that ends its component
  function ParseCurDir(input: Bytes): (r: PResult<WindowsComponent>)
    ensures r.Ok? <==> |input| > 0 && input[0] == DOT && (|input| == 1 || IsSep(input[1]))
    ensures r.Ok? ==> r.rest == input[1..] && r.value == CurDir
  {
    match Suffixed(s => BytesTag(CURRENT_DIR, s), AtComponentEnd, input)
    case Ok(rest, _) => Ok(rest, CurDir)
    case Fail => Fail
  }

  /// `parent_dir`: a `..` that ends its component
  function ParseParentDir(input: Bytes): (r: PResult<WindowsComponent>)
    ensures r.Ok? <==> |input| > 1 && input[0] == DOT && input[1] == DOT && (|input| == 2 || IsSep(input[2]))
    ensures r.Ok? ==> r.rest == input[2..] && r.value == ParentDir
  {
    match Suffixed(s => BytesTag(PARENT_DIR, s), AtComponentEnd, input)
    case Ok(rest, _) => Ok(rest, ParentDir)
    case Fail => Fail
  }

  /// `normal_bytes`: the longest non-empty run of allowed bytes
  function NormalBytes(input: Bytes): (r: PResult<Bytes>)
    ensures r.Ok? <==> |input| > 0 && !IsDisallowed(input[0])
    ensures r.Ok? ==> r.value + r.rest == input && |r.value| > 0 && FieldOk(r.value)
    ensures r.Ok? ==> r.rest == [] || IsDisallowed(r.rest[0])
  {
    TakeUntilByte(IsDisallowed, input)
  }

  /// `normal_bytes` on a field followed by a disallowed byte or the end
  /// reads exactly that field
  lemma NormalBytesReads(x: Bytes, rest: Bytes)
    requires x != [] && FieldOk(x)
    requires rest == [] || IsDisallowed(rest[0])
    ensures NormalBytes(x + rest) == Ok(rest, x)
  {
    var s := x + rest;
    FirstMatchUnique(IsDisallowed, s, |x|);
    assert s[..|x|] == x && s[|x|..] == rest;
  }

  /// `normal`: a normal name
  function ParseNormal(input: Bytes): (r: PResult<WindowsComponent>)
    ensures r.Ok? <==> |input| > 0 && !IsDisallowed(input[0])
    ensures r.Ok? ==> r.value.Normal? && r.value.name + r.rest == input && |r.value.name| > 0
    ensures r.Ok? ==> FieldOk(r.value.name)
    ensures r.Ok? ==> r.rest == [] || IsDisallowed(r.rest[0])
  {
    match NormalBytes(input)
    case Ok(rest, name) => Ok(rest, Normal(name))
    case Fail => Fail
  }

  /// What a whole name segment `seg`, followed by `after`, denotes: `.` and
  /// `..` are special only when a separator or the end follows them.
  function ClassifyAt(seg: Bytes, after: Bytes): WindowsComponent {
    if after == [] || IsSep(after[0]) then
      if seg == PARENT_DIR then ParentDir
      else if seg == CURRENT_DIR then CurDir
      else Normal(seg)
    else Normal(seg)
  }

  /// The first name segment: bytes up to the first disallowed one
  function SegLen(s: Bytes): (n: nat)
    ensures n <= |s|
  {
    FirstMatch(IsDisallowed, s)
  }

  /// `file_or_dir_name`: `..`, then `.`, then a normal name. It reads the
  /// whole first segment and classifies it; `.hello`, `..hello` and `...`
  /// are normal names, and so is a `.` followed by `:`.
  function FileOrDirName(input: Bytes): (r: PResult<WindowsComponent>)
    ensures r.Ok? <==> |input| > 0 && !IsDisallowed(input[0])
    ensures r.Ok? ==> r.rest == input[SegLen(input)..]
    ensures r.Ok? ==> r.value == ClassifyAt(input[..SegLen(input)], input[SegLen(input)..])
  {
    AnyOfThree(ParseParentDir, ParseCurDir, ParseNormal, input);
    var r := AnyOf([ParseParentDir, ParseCurDir, ParseNormal], input);
    if r.Ok? then
      var n := SegLen(input);
      if ParseParentDir(input).Ok? then
        assert n == 2;
        r
      else if ParseCurDir(input).Ok? then
        assert n == 1;
        r
      else
        assert r == ParseNormal(input);
        assert |r.value.name| == n by {
          var m := |r.value.name|;
          assert forall k | 0 <= k < m :: input[k] == r.value.name[k];
          assert m < |input| ==> input[m] == r.rest[0];
        }
        r
    else r
  }

  lemma SeparatorConsuming()
    ensures Consuming(ParseSeparator)
  {
  }

  /// Number of leading separators
  function LeadingSeps(s: Bytes): (n: nat)
    ensures n <= |s|
    ensures forall k | 0 <= k < n :: IsSep(s[k])
    ensures n < |s| ==> !IsSep(s[n])
  {
    FirstMatch(NotSep, s)
  }

  /// A separator in front adds one to the leading run
  lemma LeadingSepsStep(s: Bytes)
    requires |s| > 0 && IsSep(s[0])
    ensures LeadingSeps(s) == 1 + LeadingSeps(s[1..])
  {
    var n := LeadingSeps(s[1..]);
    assert forall k | 0 <= k < n + 1 :: IsSep(s[k]);
    assert n + 1 < |s| ==> s[n + 1] == s[1..][n];
    FirstMatchUnique(NotSep, s, n + 1);
  }

  /// `zero_or_more(separator)` skips exactly the leading separators
  lemma {:induction false} SkipSeparators(s: Bytes)
    requires Consuming(ParseSeparator)
    ensures Many(ParseSeparator, s).0 == s[LeadingSeps(s)..]
    decreases |s|
  {
    if |s| > 0 && IsSep(s[0]) {
      SkipSeparators(s[1..]);
      LeadingSepsStep(s);
    }
  }

  /// `suffixed(p, zero_or_more(separator))`: a component together with the
  /// separators after it
  function WithTrailingSeparators(p: Parser<WindowsComponent>, input: Bytes): (r: PResult<WindowsComponent>)
    ensures r.Ok? <==> p(input).Ok?
    ensures r.Ok? ==> r.value == p(input).value
    ensures r.Ok? ==> r.rest == p(input).rest[LeadingSeps(p(input).rest)..]
  {
    SeparatorConsuming();
    var r := Suffixed(p, s => ZeroOrMore(ParseSeparator, s), input);
    if r.Ok? then
      SkipSeparators(p(input).rest);
      r
    else r
  }

  // ---------------------------------------------------------------------------
  // Prefixes

  /// `\\?\` with either separator in each separator position
  predicate VerbatimAt(s: Bytes) {
    |s| >= 4 && IsSep(s[0]) && IsSep(s[1]) && s[2] == QUESTION && IsSep(s[3])
  }

  /// `\\.\` with either separator in each separator position
  predicate DeviceAt(s: Bytes) {
    |s| >= 4 && IsSep(s[0]) && IsSep(s[1]) && s[2] == DOT && IsSep(s[3])
  }

  /// `verbatim`: `\\?\`
  function ParseVerbatim(input: Bytes): (r: PResult<()>)
    ensures r.Ok? <==> VerbatimAt(input)
    ensures r.Ok? ==> r.rest == input[4..]
  {
    match ParseSeparator(input)
    case Fail => Fail
    case Ok(i1, _) =>
      match ParseSeparator(i1)
      case Fail => Fail
      case Ok(i2, _) =>
        match Byte(QUESTION, i2)
        case Fail => Fail
        case Ok(i3, _) =>
          match ParseSeparator(i3)
          case Fail => Fail
          case Ok(i4, _) => Ok(i4, ())
  }

  /// `\\.\`, the start of `prefix_device_ns`
  function ParseDeviceStart(input: Bytes): (r: PResult<()>)
    ensures r.Ok? <==> DeviceAt(input)
    ensures r.Ok? ==> r.rest == input[4..]
  {
    match ParseSeparator(input)
    case Fail => Fail
    case Ok(i1, _) =>
      match ParseSeparator(i1)
      case Fail => Fail
      case Ok(i2, _) =>
        match Byte(DOT, i2)
        case Fail => Fail
        case Ok(i3, _) =>
          match ParseSeparator(i3)
          case Fail => Fail
          case Ok(i4, _) => Ok(i4, ())
  }

  /// `\\?\UNC\` with either separator in each separator position
  predicate VerbatimUNCAt(s: Bytes) {
    VerbatimAt(s) && |s| >= 8 && s[4] == UNC_TAG[0] && s[5] == UNC_TAG[1] && s[6] == UNC_TAG[2] && IsSep(s[7])
  }

  /// `divided(normal_bytes, separator, normal_bytes)`: a server and a share
  /// around one separator
  function ServerShare(input: Bytes): (r: PResult<(Bytes, Bytes)>)
    ensures r.Ok? ==> var n := |r.value.0|;
                      0 < n < |input| && IsSep(input[n]) && FieldOk(r.value.0) && r.value.0 == input[..n]
                      && NormalBytes(input[n + 1..]) == Ok(r.rest, r.value.1)
  {
    Divided(NormalBytes, ParseSeparator, NormalBytes, input)
  }

  /// Two fields joined by a separator and followed by a disallowed byte or
  /// the end read back as those fields
  lemma ServerShareReads(x: Bytes, sep: byte, y: Bytes, rest: Bytes, s: Bytes)
    requires x != [] && y != [] && FieldOk(x) && FieldOk(y) && IsSep(sep)
    requires rest == [] || IsDisallowed(rest[0])
    requires s == x + ([sep] + (y + rest))
    ensures ServerShare(s) == Ok(rest, (x, y))
  {
    NormalBytesReads(y, rest);
    NormalBytesReads(x, [sep] + (y + rest));
    assert ([sep] + (y + rest))[1..] == y + rest;
  }

  /// `bytes(b"UNC")`
  function ParseUNCTag(input: Bytes): (r: PResult<Bytes>)
    ensures r.Ok? <==> |input| >= 3 && input[0] == UNC_TAG[0] && input[1] == UNC_TAG[1] && input[2] == UNC_TAG[2]
    ensures r.Ok? ==> r.rest == input[3..]
  {
    var r := BytesTag(UNC_TAG, input);
    assert |input| >= 3 ==> (input[..3] == UNC_TAG <==> input[0] == UNC_TAG[0] && input[1] == UNC_TAG[1] && input[2] == UNC_TAG[2]);
    r
  }

  /// What follows `\\?\` in `prefix_verbatim_unc`: `UNC\server\share`
  function VerbatimUNCTail(input: Bytes): (r: PResult<WindowsPrefix>)
    ensures r.Ok? <==> |input| >= 4 && input[0] == UNC_TAG[0] && input[1] == UNC_TAG[1] && input[2] == UNC_TAG[2]
                       && IsSep(input[3]) && ServerShare(input[4..]).Ok?
    ensures r.Ok? ==> r.rest == ServerShare(input[4..]).rest
    ensures r.Ok? ==> r.value == VerbatimUNC(ServerShare(input[4..]).value.0, ServerShare(input[4..]).value.1)
  {
    match ParseUNCTag(input)
    case Fail => Fail
    case Ok(i1, _) =>
      match ParseSeparator(i1)
      case Fail => Fail
      case Ok(i2, _) =>
        assert i2 == input[4..];
        match ServerShare(i2)
        case Fail => Fail
        case Ok(rest, (x, y)) => Ok(rest, VerbatimUNC(x, y))
  }

  /// `prefix_verbatim_unc`: `\\?\UNC\server\share`
  function PrefixVerbatimUNC(input: Bytes): (r: PResult<WindowsPrefix>)
    ensures r.Ok? <==> VerbatimUNCAt(input) && ServerShare(input[8..]).Ok?
    ensures r.Ok? ==> r.rest == ServerShare(input[8..]).rest
    ensures r.Ok? ==> r.value == VerbatimUNC(ServerShare(input[8..]).value.0, ServerShare(input[8..]).value.1)
  {
    match ParseVerbatim(input)
    case Fail => Fail
    case Ok(i1, _) =>
      assert |i1| >= 4 ==> i1[4..] == input[8..];
      VerbatimUNCTail(i1)
  }

  /// `drive_letter` as written: `take(1)` there needs a second byte after
  /// the letter
  function DriveLetterAsWritten(input: Bytes): (r: PResult<byte>)
    ensures r.Ok? <==> |input| > 1 && IsAlphabetic(input[0])
    ensures r.Ok? ==> r.value == input[0] && r.rest == input[1..]
  {
    match TakeAsWritten(1, input)
    case Fail => Fail
    case Ok(rest, letter) => if !IsAlphabetic(letter[0]) then Fail else Ok(rest, letter[0])
  }

  /// `drive_letter`: one alphabetic byte
  function DriveLetter(input: Bytes): (r: PResult<byte>)
    ensures r.Ok? <==> |input| > 0 && IsAlphabetic(input[0])
    ensures r.Ok? ==> r.value == input[0] && r.rest == input[1..]
  {
    match Take(1, input)
    case Fail => Fail
    case Ok(rest, letter) =>
      assert letter[0] == input[0];
      if !IsAlphabetic(letter[0]) then Fail else Ok(rest, letter[0])
  }

  /// `disk_byte`: a drive letter and `:`
  function DiskByte(input: Bytes): (r: PResult<byte>)
    ensures r.Ok? <==> |input| > 1 && IsAlphabetic(input[0]) && input[1] == COLON
    ensures r.Ok? ==> r.value == input[0] && r.rest == input[2..]
  {
    match DriveLetter(input)
    case Fail => Fail
    case Ok(i1, d) =>
      match Byte(COLON, i1)
      case Fail => Fail
      case Ok(i2, _) => Ok(i2, d)
  }

  /// `disk_byte` over the `drive_letter` as written
  function DiskByteAsWritten(input: Bytes): PResult<byte> {
    match DriveLetterAsWritten(input)
    case Fail => Fail
    case Ok(i1, d) =>
      match Byte(COLON, i1)
      case Fail => Fail
      case Ok(i2, _) => Ok(i2, d)
  }

  /// Where `disk_byte` uses it, the stricter `take(1)` makes no difference:
  /// the `:` after the letter is the second byte it asks for
  lemma DiskByteUnaffected(input: Bytes)
    ensures DiskByteAsWritten(input) == DiskByte(input)
  {
  }

  /// `prefix_verbatim_disk`: `\\?\C:`
  function PrefixVerbatimDisk(input: Bytes): (r: PResult<WindowsPrefix>)
    ensures r.Ok? <==> VerbatimAt(input) && |input| > 5 && IsAlphabetic(input[4]) && input[5] == COLON
    ensures r.Ok? ==> r.value == VerbatimDisk(input[4]) && r.rest == input[6..]
  {
    match ParseVerbatim(input)
    case Fail => Fail
    case Ok(i1, _) =>
      match DiskByte(i1)
      case Fail => Fail
      case Ok(rest, d) => Ok(rest, VerbatimDisk(d))
  }

  /// The drive-letter check of `prefix_verbatim`, given the guard `drive`
  /// (`drive_letter(value).is_ok()` on a one-byte value): a letter must not
  /// be followed by `:`.
  function NoColonAfterLetter(drive: bool, input: Bytes): (r: PResult<()>)
    ensures r.Ok? <==> !drive || input == [] || input[0] != COLON
    ensures r.Ok? ==> r.rest == input
  {
    if drive then
      AnyOfTwo(Empty, s => Not(t => Byte(COLON, t), s), input);
      AnyOf([Empty, s => Not(t => Byte(COLON, t), s)], input)
    else Ok(input, ())
  }

  /// A one-letter name followed by `:`, which is a drive and not a name
  predicate DriveThenColon(value: Bytes, rest: Bytes) {
    |value| == 1 && IsAlphabetic(value[0]) && rest != [] && rest[0] == COLON
  }

  /// `prefix_verbatim` as written: the guard calls `drive_letter` on the
  /// one-byte value, where `take(1)` as written always fails, so the check
  /// for a following `:` never runs
  function PrefixVerbatimAsWritten(input: Bytes): PResult<WindowsPrefix> {
    match ParseVerbatim(input)
    case Fail => Fail
    case Ok(i1, _) =>
      match NormalBytes(i1)
      case Fail => Fail
      case Ok(i2, value) =>
        if value == UNC_TAG then Fail
        else
          var drive := |value| == 1 && DriveLetterAsWritten(value).Ok?;
          match NoColonAfterLetter(drive, i2)
          case Fail => Fail
          case Ok(i3, _) => Ok(i3, Verbatim(value))
  }

  /// `prefix_verbatim`: `\\?\name`, other than `UNC` and other than a drive
  /// letter followed by `:`
  function PrefixVerbatim(input: Bytes): (r: PResult<WindowsPrefix>)
    ensures r.Ok? <==> VerbatimAt(input) && NormalBytes(input[4..]).Ok? && NormalBytes(input[4..]).value != UNC_TAG
                       && !DriveThenColon(NormalBytes(input[4..]).value, NormalBytes(input[4..]).rest)
    ensures r.Ok? ==> r == Ok(NormalBytes(input[4..]).rest, Verbatim(NormalBytes(input[4..]).value))
  {
    match ParseVerbatim(input)
    case Fail => Fail
    case Ok(i1, _) =>
      match NormalBytes(i1)
      case Fail => Fail
      case Ok(i2, value) =>
        if value == UNC_TAG then Fail
        else
          var drive := |value| == 1 && DriveLetter(value).Ok?;
          match NoColonAfterLetter(drive, i2)
          case Fail => Fail
          case Ok(i3, _) => Ok(i3, Verbatim(value))
  }

  /// `prefix_device_ns`: `\\.\device`
  function PrefixDeviceNS(input: Bytes): (r: PResult<WindowsPrefix>)
    ensures r.Ok? <==> DeviceAt(input) && NormalBytes(input[4..]).Ok?
    ensures r.Ok? ==> r == Ok(NormalBytes(input[4..]).rest, DeviceNS(NormalBytes(input[4..]).value))
  {
    match ParseDeviceStart(input)
    case Fail => Fail
    case Ok(i1, _) =>
      match NormalBytes(i1)
      case Fail => Fail
      case Ok(rest, x) => Ok(rest, DeviceNS(x))
  }

  /// `prefix_unc`: `\\server\share`
  function PrefixUNC(input: Bytes): (r: PResult<WindowsPrefix>)
    ensures r.Ok? <==> |input| > 2 && IsSep(input[0]) && IsSep(input[1]) && ServerShare(input[2..]).Ok?
    ensures r.Ok? ==> r.rest == ServerShare(input[2..]).rest
    ensures r.Ok? ==> r.value == UNC(ServerShare(input[2..]).value.0, ServerShare(input[2..]).value.1)
  {
    match ParseSeparator(input)
    case Fail => Fail
    case Ok(i1, _) =>
      match ParseSeparator(i1)
      case Fail => Fail
      case Ok(i2, _) =>
        assert i2 == input[2..];
        match ServerShare(i2)
        case Fail => Fail
        case Ok(rest, (x, y)) => Ok(rest, UNC(x, y))
  }

  /// `prefix_disk`: `C:`
  function PrefixDisk(input: Bytes): (r: PResult<WindowsPrefix>)
    ensures r.Ok? <==> |input| > 1 && IsAlphabetic(input[0]) && input[1] == COLON
    ensures r.Ok? ==> r.value == Disk(input[0]) && r.rest == input[2..]
  {
    match DiskByte(input)
    case Fail => Fail
    case Ok(rest, d) => Ok(rest, Disk(d))
  }

  /// `prefix`: the six forms, most specific first
  function ParsePrefix(input: Bytes): PResult<WindowsPrefix> {
    AnyOf([PrefixVerbatimUNC, PrefixVerbatimDisk, PrefixVerbatim, PrefixDeviceNS, PrefixUNC, PrefixDisk], input)
  }

  /// `prefix` with `prefix_verbatim` as written
  function ParsePrefixAsWritten(input: Bytes): PResult<WindowsPrefix> {
    AnyOf([PrefixVerbatimUNC, PrefixVerbatimDisk, PrefixVerbatimAsWritten, PrefixDeviceNS, PrefixUNC, PrefixDisk], input)
  }
}
