/// The Unix leaf parsers, identical in the whole-path parser and in the
/// incremental front/back parser: root directory, `.`, `..`, normal names and
/// separators.
module UnixGrammar {
  import opened ByteSeq
  import opened Combinators
  import opened UnixComponentModel

  /// `DISALLOWED_FILENAME_BYTES`: the bytes a Unix file name cannot hold
  predicate IsDisallowed(b: byte) { b == NUL || b == SLASH }

  predicate IsSlash(b: byte) { b == SLASH }

  predicate NotSlash(b: byte) { b != SLASH }

  /// `separator`: one `/`
  function ParseSeparator(input: Bytes): (r: PResult<()>)
    ensures r.Ok? <==> |input| > 0 && input[0] == SLASH
    ensures r.Ok? ==> r.rest == input[1..]
  {
    match Byte(SLASH, input)
    case Ok(rest, _) => Ok(rest, ())
    case Fail => Fail
  }

  /// `root_dir`: a separator read as the root
  function ParseRootDir(input: Bytes): (r: PResult<UnixComponent>)
    ensures r.Ok? <==> |input| > 0 && input[0] == SLASH
    ensures r.Ok? ==> r.rest == input[1..] && r.value == RootDir
  {
    match ParseSeparator(input)
    case Ok(rest, _) => Ok(rest, RootDir)
    case Fail => Fail
  }

  /// `any_of!(empty, peek(separator))`: the input is at the end of a
  /// component; nothing is consumed.
  function AtComponentEnd(input: Bytes): (r: PResult<()>)
    ensures r.Ok? <==> input == [] || input[0] == SLASH
    ensures r.Ok? ==> r.rest == input
  {
    AnyOfTwo(Empty, s => Peek(ParseSeparator, s), input);
    AnyOf([Empty, s => Peek(ParseSeparator, s)], input)
  }

  /// `cur_dir`: a `.` that ends its component
  function ParseCurDir(input: Bytes): (r: PResult<UnixComponent>)
    ensures r.Ok? <==> |input| > 0 && input[0] == DOT && (|input| == 1 || input[1] == SLASH)
    ensures r.Ok? ==> r.rest == input[1..] && r.value == CurDir
  {
    match Suffixed(s => BytesTag(CURRENT_DIR, s), AtComponentEnd, input)
    case Ok(rest, _) => Ok(rest, CurDir)
    case Fail => Fail
  }

  /// `parent_dir`: a `..` that ends its component
  function ParseParentDir(input: Bytes): (r: PResult<UnixComponent>)
    ensures r.Ok? <==> |input| > 1 && input[0] == DOT && input[1] == DOT && (|input| == 2 || input[2] == SLASH)
    ensures r.Ok? ==> r.rest == input[2..] && r.value == ParentDir
  {
    match Suffixed(s => BytesTag(PARENT_DIR, s), AtComponentEnd, input)
    case Ok(rest, _) => Ok(rest, ParentDir)
    case Fail => Fail
  }

  /// `normal`: the longest non-empty run of allowed bytes
  function ParseNormal(input: Bytes): (r: PResult<UnixComponent>)
    ensures r.Ok? <==> |input| > 0 && !IsDisallowed(input[0])
    ensures r.Ok? ==> r.value.Normal? && r.value.name + r.rest == input && |r.value.name| > 0
    ensures r.Ok? ==> forall k | 0 <= k < |r.value.name| :: !IsDisallowed(r.value.name[k])
    ensures r.Ok? ==> r.rest == [] || IsDisallowed(r.rest[0])
  {
    match TakeUntilByte(IsDisallowed, input)
    case Ok(rest, name) => Ok(rest, Normal(name))
    case Fail => Fail
  }

  /// `normal` on a name followed by a disallowed byte or the end reads
  /// exactly that name
  lemma NormalReadsName(name: Bytes, rest: Bytes)
    requires name != [] && forall k | 0 <= k < |name| :: !IsDisallowed(name[k])
    requires rest == [] || IsDisallowed(rest[0])
    ensures ParseNormal(name + rest) == Ok(rest, Normal(name))
  {
    var s := name + rest;
    FirstMatchUnique(IsDisallowed, s, |name|);
    assert s[..|name|] == name && s[|name|..] == rest;
  }

  /// What a whole name segment `seg`, followed by `after`, denotes: `.` and
  /// `..` are special only when a separator or the end follows them.
  function ClassifyAt(seg: Bytes, after: Bytes): UnixComponent {
    if after == [] || after[0] == SLASH then
      if seg == PARENT_DIR then ParentDir
      else if seg == CURRENT_DIR then CurDir
      else Normal(seg)
    else Normal(seg)
  }

  /// The first name segment: bytes up to the first disallowed one
  function SegLen(s: Bytes): (n: nat)
    ensures n <= |s|
  {
    FirstMatch(IsDisallowed, s)
  }

  /// `file_or_dir_name`: `..`, then `.`, then a normal name. It reads the
  /// whole first segment and classifies it; `.hello`, `..hello` and `...`
  /// are normal names.
  function FileOrDirName(input: Bytes): (r: PResult<UnixComponent>)
    ensures r.Ok? <==> |input| > 0 && !IsDisallowed(input[0])
    ensures r.Ok? ==> r.rest == input[SegLen(input)..]
    ensures r.Ok? ==> r.value == ClassifyAt(input[..SegLen(input)], input[SegLen(input)..])
  {
    AnyOfThree(ParseParentDir, ParseCurDir, ParseNormal, input);
    var r := AnyOf([ParseParentDir, ParseCurDir, ParseNormal], input);
    if r.Ok? then
      var n := SegLen(input);
      if ParseParentDir(input).Ok? then
        assert n == 2;
        r
      else if ParseCurDir(input).Ok? then
        assert n == 1;
        r
      else
        assert r == ParseNormal(input);
        assert |r.value.name| == n by {
          var m := |r.value.name|;
          assert forall k | 0 <= k < m :: input[k] == r.value.name[k];
          assert m < |input| ==> input[m] == r.rest[0];
        }
        r
    else r
  }

  /// A segment of the grammar's names never reads as the root
  lemma ClassifyNotRoot(seg: Bytes, after: Bytes)
    ensures !ClassifyAt(seg, after).RootDir?
  {
  }

  lemma SeparatorConsuming()
    ensures Consuming(ParseSeparator)
  {
  }

  /// Number of leading separators
  function LeadingSlashes(s: Bytes): (n: nat)
    ensures n <= |s|
    ensures forall k | 0 <= k < n :: s[k] == SLASH
    ensures n < |s| ==> s[n] != SLASH
  {
    FirstMatch(NotSlash, s)
  }

  /// `zero_or_more(separator)` skips exactly the leading separators
  lemma {:induction false} SkipSeparators(s: Bytes)
    requires Consuming(ParseSeparator)
    ensures ZeroOrMore(ParseSeparator, s).rest == s[LeadingSlashes(s)..]
    decreases |s|
  {
    SkipSeparatorsMany(s);
  }

  lemma {:induction false} SkipSeparatorsMany(s: Bytes)
    requires Consuming(ParseSeparator)
    ensures Many(ParseSeparator, s).0 == s[LeadingSlashes(s)..]
    decreases |s|
  {
    if |s| > 0 && s[0] == SLASH {
      SkipSeparatorsMany(s[1..]);
      assert LeadingSlashes(s) == 1 + LeadingSlashes(s[1..]) by {
        var n := LeadingSlashes(s[1..]);
        assert forall k | 0 <= k < n + 1 :: s[k] == SLASH;
        assert n + 1 < |s| ==> s[n + 1] == s[1..][n];
      }
    }
  }

  /// `suffixed(p, zero_or_more(separator))`: a component together with the
  /// separators after it
  function WithTrailingSeparators(p: Parser<UnixComponent>, input: Bytes): (r: PResult<UnixComponent>)
    ensures r.Ok? <==> p(input).Ok?
    ensures r.Ok? ==> r.value == p(input).value
    ensures r.Ok? ==> r.rest == p(input).rest[LeadingSlashes(p(input).rest)..]
  {
    SeparatorConsuming();
    var r := Suffixed(p, s => ZeroOrMore(ParseSeparator, s), input);
    if r.Ok? then
      SkipSeparators(p(input).rest);
      r
    else r
  }
}
