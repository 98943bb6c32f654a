/// `TypedPath`: a path whose encoding is decided from its bytes, and
/// `TypedPathBuf`, its owned form
module TypedPathModel {
  import opened ByteSeq
  import opened Combinators
  import opened WindowsComponentModel
  import opened WindowsGrammar
  import opened WindowsStepGrammar
  import WI = WindowsIncremental
  import WCs = WindowsComponentsModel
  import WE = WindowsEncodingModel
  import WindowsIncrementalProperties

  /// `TypedPath<'a>`: a Unix or a Windows view of the same bytes
  datatype TypedPath = UnixPath(bytes: Bytes) | WindowsPath(bytes: Bytes)

  /// `TypedPathBuf`: an owned Unix or Windows buffer
  datatype TypedPathBuf = UnixPathBuf(bytes: Bytes) | WindowsPathBuf(bytes: Bytes)

  /// A drive letter and `:`, as `C:` starts a disk prefix
  predicate DriveStart(s: Bytes) {
    |s| >= 2 && IsAlphabetic(s[0]) && s[1] == COLON
  }

  /// Two separators of either kind, then a byte that is none, as
  /// `\\server`, `//server`, `\\?\` and `\\.\` start
  predicate ServerStart(s: Bytes) {
    |s| >= 3 && IsSep(s[0]) && IsSep(s[1]) && !IsSep(s[2])
  }

  /// A fresh Windows components iterator starts with a prefix exactly when
  /// the path starts like a drive or like a server
  lemma PrefixShape(s: Bytes)
    ensures WCs.PrefixFirst(WI.AtBeginning, s) <==> DriveStart(s) || ServerStart(s)
  {
    WE.StepPrefixOfLeading(s);
    StepPrefixOk(s);
  }

  /// `TypedPath::new`: Windows when the Windows iterator finds a prefix or
  /// the path starts with `\`, Unix otherwise. Read off the bytes, that is a
  /// leading `\`, a drive and `:`, or two separators and a name
  function New(s: Bytes): (r: TypedPath)
    ensures r.bytes == s
    ensures r.WindowsPath? <==> (s != [] && s[0] == BACKSLASH) || DriveStart(s) || ServerStart(s)
  {
    PrefixShape(s);
    if WCs.PrefixFirst(WI.AtBeginning, s) || (s != [] && s[0] == BACKSLASH) then WindowsPath(s)
    else UnixPath(s)
  }

  /// `has_prefix` as written: it peeks at the first component with the
  /// as-written `parse_front`, whose skip after the component fails unless a
  /// separator or `.` follows it
  predicate PeekPrefixAsWritten(s: Bytes) {
    match WI.ParseFrontAsWritten(WI.AtBeginning, WCs.Normalizes(s), s)
    case Ok(_, c) => c.Prefix?
    case Fail => false
  }

  /// `TypedPath::new` as written. It only ever reads fewer paths as Windows
  /// paths than `New`
  function NewAsWritten(s: Bytes): (r: TypedPath)
    ensures r.bytes == s
    ensures r.WindowsPath? ==> New(s).WindowsPath?
  {
    if PeekPrefixAsWritten(s) then
      WindowsPath(s)
    else if s != [] && s[0] == BACKSLASH then WindowsPath(s)
    else UnixPath(s)
  }

  /// As written, a drive with nothing after it, or with a name right after
  /// it, is not seen as a prefix: `C:` and `C:a` are Unix paths, where the
  /// doc comment of `TypedPath::new` and `New` make them Windows paths
  lemma DriveThenNameAsWritten(s: Bytes, d: byte)
    requires |s| >= 2 && s[0] == d && IsAlphabetic(d) && s[1] == COLON
    requires |s| == 2 || (!IsSep(s[2]) && s[2] != DOT)
    ensures IsUnix(NewAsWritten(s)) && IsWindows(New(s))
  {
    WindowsIncrementalProperties.DiskPrefixStep(s, d);
    assert WI.SkipLenAsWritten(WCs.Normalizes(s), s[2..], NUL) == 0;
  }

  /// `is_windows`
  predicate IsWindows(t: TypedPath) {
    t.WindowsPath?
  }

  /// `is_unix`: exactly when the path is not a Windows one
  function IsUnix(t: TypedPath): (b: bool)
    ensures b != IsWindows(t)
  {
    t.UnixPath?
  }

  /// `to_path_buf`: an owned buffer of the same encoding and the same bytes
  function ToPathBuf(t: TypedPath): (r: TypedPathBuf)
    ensures r.bytes == t.bytes
    ensures r.WindowsPathBuf? <==> IsWindows(t)
  {
    match t
    case UnixPath(b) => UnixPathBuf(b)
    case WindowsPath(b) => WindowsPathBuf(b)
  }

  /// The examples of `TypedPath::new`: `C:\a` and `\a` are Windows paths;
  /// `/a`, `a\b`, `a` and the empty path are Unix paths
  lemma NewExamples(drive: Bytes, rooted: Bytes, slash: Bytes, mixed: Bytes, name: Bytes)
    requires drive == [67, COLON, BACKSLASH, 97] && rooted == [BACKSLASH, 97]
    requires slash == [SLASH, 97] && mixed == [97, BACKSLASH, 98] && name == [97]
    ensures IsWindows(New(drive)) && IsWindows(New(rooted))
    ensures IsUnix(New(slash)) && IsUnix(New(mixed)) && IsUnix(New(name)) && IsUnix(New([]))
  {
  }

  /// A path written with `/` only, that does not start with two of them,
  /// and whose first bytes are not a drive, is a Unix path
  lemma SlashPathIsUnix(s: Bytes)
    requires forall k | 0 <= k < |s| :: s[k] != BACKSLASH
    requires !DriveStart(s) && !(|s| >= 2 && s[0] == SLASH && s[1] == SLASH)
    ensures IsUnix(New(s))
  {
  }

  /// But `//server/share` is a Windows path, read as a UNC prefix
  lemma ForwardSlashServerIsWindows(s: Bytes, rest: Bytes)
    requires rest != [] && !IsSep(rest[0])
    requires s == [SLASH, SLASH] + rest
    ensures IsWindows(New(s))
  {
    assert s[2] == rest[0];
  }
}
