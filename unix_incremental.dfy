/// The incremental Unix parser behind `UnixComponents`: a cursor over the
/// unparsed bytes and a two-state machine, read from the front or the back
/// one component at a time.
module UnixIncremental {
  import opened ByteSeq
  import opened Combinators
  import opened UnixComponentModel
  import opened UnixGrammar

  datatype State = AtBeginning | NotAtBeginning

  function Discard(c: UnixComponent): () { () }

  /// `any_of!(cur_dir, separator)`: a lone `.` or a separator
  function CurDirOrSeparator(input: Bytes): (r: PResult<()>)
    ensures r.Ok? <==> ParseCurDir(input).Ok? || ParseSeparator(input).Ok?
    ensures r.Ok? ==> r.rest == input[1..]
  {
    AnyOfTwo(s => Map(ParseCurDir, Discard, s), ParseSeparator, input);
    AnyOf([s => Map(ParseCurDir, Discard, s), ParseSeparator], input)
  }

  /// The bytes the front parser skips once past the beginning: separators
  /// and lone `.` components
  function SkipLen(input: Bytes): (n: nat)
    ensures n <= |input|
  {
    TakeWhileLen(CurDirOrSeparator, input)
  }

  /// `any_of!(root_dir, parent_dir, cur_dir, normal)`
  function FirstComponent(input: Bytes): (r: PResult<UnixComponent>)
    ensures r.Ok? ==> |r.rest| < |input| && IsSuffix(r.rest, input)
    ensures input == [] ==> r.Fail?
  {
    AnyOfFour(ParseRootDir, ParseParentDir, ParseCurDir, ParseNormal, input);
    var r := AnyOf([ParseRootDir, ParseParentDir, ParseCurDir, ParseNormal], input);
    if r.Ok? then
      DropOneIsSuffix(input, |input| - |r.rest|);
      r
    else r
  }

  /// `any_of!(parent_dir, normal)`
  function LaterComponent(input: Bytes): (r: PResult<UnixComponent>)
    ensures r.Ok? ==> |r.rest| < |input| && IsSuffix(r.rest, input)
    ensures r.Ok? ==> r.value != CurDir && r.value != RootDir
    ensures input == [] ==> r.Fail?
  {
    AnyOfTwo(ParseParentDir, ParseNormal, input);
    var r := AnyOf([ParseParentDir, ParseNormal], input);
    if r.Ok? then
      DropOneIsSuffix(input, |input| - |r.rest|);
      r
    else r
  }

  /// A parser that drops `n` leading bytes leaves a suffix
  lemma DropOneIsSuffix(input: Bytes, n: nat)
    requires 0 < n <= |input|
    ensures IsSuffix(input[n..], input)
  {
  }

  /// `parse_front` once past the beginning, as written: `take_while` fails
  /// when there is nothing to skip, so this fails on `b` (what is left of
  /// `a/b` after `a`) instead of reading the name.
  function ParseFrontAsWritten(state: State, input: Bytes): PResult<UnixComponent> {
    match state
    case AtBeginning => WithTrailingSeparators(FirstComponent, input)
    case NotAtBeginning =>
      match TakeWhile(CurDirOrSeparator, input)
      case Fail => Fail
      case Ok(rest, _) => WithTrailingSeparators(LaterComponent, rest)
  }

  /// `parse_front` with the skip made optional (`maybe(take_while(..))`): at
  /// the beginning a root, `..`, `.` or a name; later, after skipping
  /// separators and lone `.`s, a `..` or a name. Either way the separators
  /// after the component go with it.
  function ParseFront(state: State, input: Bytes): (r: PResult<UnixComponent>)
    ensures r.Ok? ==> |r.rest| < |input| && IsSuffix(r.rest, input)
    ensures r.Ok? && state == NotAtBeginning ==> r.value != CurDir && r.value != RootDir
    ensures input == [] ==> r.Fail?
  {
    match state
    case AtBeginning => FrontAtBeginning(input)
    case NotAtBeginning => FrontPastBeginning(input)
  }

  /// `parse_front` at the beginning: a root, `..`, `.` or a name
  function FrontAtBeginning(input: Bytes): (r: PResult<UnixComponent>)
    ensures r.Ok? ==> |r.rest| < |input| && IsSuffix(r.rest, input)
    ensures input == [] ==> r.Fail?
  {
    var r := WithTrailingSeparators(FirstComponent, input);
    if r.Ok? then
      SuffixTrans(r.rest, FirstComponent(input).rest, input);
      r
    else r
  }

  /// `parse_front` past the beginning: separators and lone `.`s skipped,
  /// then a `..` or a name
  function FrontPastBeginning(input: Bytes): (r: PResult<UnixComponent>)
    ensures r.Ok? ==> |r.rest| < |input| && IsSuffix(r.rest, input)
    ensures r.Ok? ==> r.value != CurDir && r.value != RootDir
    ensures input == [] ==> r.Fail?
  {
    var skipped := Maybe(s => TakeWhile(CurDirOrSeparator, s), input).rest;
    assert skipped == input[SkipLen(input)..];
    var r := WithTrailingSeparators(LaterComponent, skipped);
    if r.Ok? then
      SuffixTrans(r.rest, LaterComponent(skipped).rest, skipped);
      SuffixTrans(r.rest, skipped, input);
      r
    else r
  }

  /// Number of trailing bytes `parse_back` skips as written: separators, and
  /// a `.` unless the byte scanned just before it (to its right, separators
  /// aside) was also a `.`. `lastSeen` is the closure's `last_seen_byte`.
  function TrailingSkipAsWritten(s: Bytes, lastSeen: byte): (n: nat)
    ensures n <= |s|
    decreases |s|
  {
    if s == [] then 0
    else
      var b := s[|s| - 1];
      if b == SLASH then 1 + TrailingSkipAsWritten(s[..|s| - 1], lastSeen)
      else if b == DOT && lastSeen != DOT then 1 + TrailingSkipAsWritten(s[..|s| - 1], b)
      else 0
  }

  /// Number of trailing bytes that are separators or lone `.` components
  function TrailingSkip(s: Bytes): (n: nat)
    ensures n <= |s|
    ensures n < |s| ==> s[|s| - n - 1] != SLASH
    ensures n < |s| && s[|s| - n - 1] == DOT ==> |s| - n >= 2 && s[|s| - n - 2] != SLASH
    decreases |s|
  {
    if s == [] then 0
    else
      var b := s[|s| - 1];
      if b == SLASH || (b == DOT && (|s| == 1 || s[|s| - 2] == SLASH)) then
        var m := TrailingSkip(s[..|s| - 1]);
        assert forall k | 0 <= k < |s| - 1 :: s[..|s| - 1][k] == s[k];
        1 + m
      else 0
  }

  /// A name a Unix component can hold: non-empty, with no separator or NUL
  predicate NameBytes(name: Bytes) {
    name != [] && forall k | 0 <= k < |name| :: !IsDisallowed(name[k])
  }

  /// The non-empty segment after the last separator of `stripped`, which
  /// must be a whole `..` or normal name; what comes before it stays.
  function LastSegment(stripped: Bytes): (r: PResult<UnixComponent>)
    ensures r.Ok? ==> |r.rest| < |stripped| && StartsWith(stripped, r.rest)
    ensures r.Ok? ==> r.value != CurDir && r.value != RootDir
    ensures r.Ok? && r.rest != [] ==> r.rest[|r.rest| - 1] == SLASH
    ensures r.Ok? && r.value.Normal? ==> r.rest + r.value.name == stripped
    ensures r.Ok? && r.value.Normal? ==> NameBytes(r.value.name)
  {
    var split := RTakeUntilByte1(NotSlash, stripped);
    if split.Fail? then Fail
    else
      var c := FullyConsumed(LaterComponent, split.value);
      if c.Fail? then Fail
      else
        LastSegmentShape(stripped, split.rest, split.value, c.value);
        Ok(split.rest, c.value)
  }

  /// A last segment read whole after the separator that precedes it
  lemma LastSegmentShape(stripped: Bytes, dir: Bytes, seg: Bytes, c: UnixComponent)
    requires dir + seg == stripped && |seg| > 0
    requires dir == [] || !NotSlash(dir[|dir| - 1])
    requires LaterComponent(seg) == Ok([], c)
    ensures |dir| < |stripped| && StartsWith(stripped, dir)
    ensures c != CurDir && c != RootDir
    ensures dir != [] ==> dir[|dir| - 1] == SLASH
    ensures c.Normal? ==> dir + c.name == stripped && NameBytes(c.name)
  {
    AnyOfTwo(ParseParentDir, ParseNormal, seg);
    assert stripped[..|dir|] == dir;
  }

  /// The shared tail of `parse_back` once the trailing bytes to skip are
  /// gone: at the beginning with nothing left, the front parser reads the
  /// original input; otherwise the last segment.
  function ParseLastSegment(state: State, original: Bytes, stripped: Bytes): (r: PResult<UnixComponent>)
    ensures state == AtBeginning && stripped == [] ==> r.Ok? == ParseFront(state, original).Ok?
    ensures r.Ok? && state == AtBeginning && stripped == [] ==> r.rest == [] && r.value == ParseFront(state, original).value
    ensures !(state == AtBeginning && stripped == []) ==> r == LastSegment(stripped)
  {
    if state == AtBeginning && stripped == [] then
      match ParseFront(state, original)
      case Ok(_, c) => Ok([], c)
      case Fail => Fail
    else LastSegment(stripped)
  }

  /// `parse_back` as written: the `is_cur_dir` closure remembers only the
  /// previously scanned byte, so it also skips the last byte of `b.` and
  /// stops inside `./.`.
  function ParseBackAsWritten(state: State, input: Bytes): PResult<UnixComponent> {
    var stripped := input[..|input| - TrailingSkipAsWritten(input, NUL)];
    ParseLastSegment(state, input, stripped)
  }

  /// `parse_back` skipping exactly the trailing separators and lone `.`
  /// components: at the beginning, nothing else left means the front parser
  /// reads what is there; otherwise the last segment, whole.
  function ParseBack(state: State, input: Bytes): (r: PResult<UnixComponent>)
    ensures r.Ok? ==> |r.rest| < |input| && StartsWith(input, r.rest)
    ensures r.Ok? && r.rest != [] ==> r.rest[|r.rest| - 1] == SLASH
    ensures r.Ok? && state == NotAtBeginning ==> r.value != CurDir && r.value != RootDir
    ensures input == [] ==> r.Fail?
  {
    var stripped := input[..|input| - TrailingSkip(input)];
    var r := ParseLastSegment(state, input, stripped);
    if r.Ok? && r.rest != [] then
      assert input[..|r.rest|] == stripped[..|r.rest|];
      r
    else r
  }

  /// The components read from the front until the parser fails
  function FrontList(state: State, input: Bytes): seq<UnixComponent>
    decreases |input|
  {
    match ParseFront(state, input)
    case Fail => []
    case Ok(rest, c) => [c] + FrontList(NotAtBeginning, rest)
  }

  /// `Parser`: the unparsed input and the state
  class Parser {
    var input: Bytes
    var state: State

    /// `new`: a parser at the beginning of `input`
    constructor (input: Bytes)
      ensures this.input == input && state == AtBeginning
    {
      this.input := input;
      state := AtBeginning;
    }

    /// `has_more`
    function HasMore(): bool
      reads this
    {
      input != []
    }

    /// `remaining`
    function Remaining(): Bytes
      reads this
    {
      input
    }

    /// `peek_front`: the next front component, as a function of the
    /// parser's fields, so that it changes neither of them
    function PeekFront(): (r: Option<UnixComponent>)
      reads this
      ensures r.Some? <==> ParseFront(state, input).Ok?
      ensures r.Some? ==> r.value == ParseFront(state, input).value
    {
      match ParseFront(state, input)
      case Ok(_, c) => Some(c)
      case Fail => None
    }

    /// `next_front`: on success the input moves past the component and the
    /// state becomes `NotAtBeginning`; on failure nothing changes
    method NextFront() returns (r: Option<UnixComponent>)
      modifies this
      ensures r == old(PeekFront())
      ensures r.Some? ==> input == ParseFront(old(state), old(input)).rest && state == NotAtBeginning
      ensures r.Some? ==> |input| < |old(input)| && IsSuffix(input, old(input))
      ensures r.None? ==> input == old(input) && state == old(state)
    {
      match ParseFront(state, input)
      case Ok(rest, c) =>
        input := rest;
        state := NotAtBeginning;
        r := Some(c);
      case Fail =>
        r := None;
    }

    /// `next_back`: on success the input loses the component at its end;
    /// the state never changes
    method NextBack() returns (r: Option<UnixComponent>)
      modifies this
      ensures r.Some? <==> ParseBack(old(state), old(input)).Ok?
      ensures r.Some? ==> r.value == ParseBack(old(state), old(input)).value
      ensures r.Some? ==> input == ParseBack(old(state), old(input)).rest
      ensures r.Some? ==> |input| < |old(input)| && StartsWith(old(input), input)
      ensures r.None? ==> input == old(input)
      ensures state == old(state)
    {
      match ParseBack(state, input)
      case Ok(rest, c) =>
        input := rest;
        r := Some(c);
      case Fail =>
        r := None;
    }
  }
}
