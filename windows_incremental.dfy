/// The incremental Windows parser behind `WindowsComponents`: a cursor over
/// the unparsed bytes, a three-state machine (at the beginning, just past a
/// prefix, further on) and a separator mode fixed when the parser is made.
module WindowsIncremental {
  import opened ByteSeq
  import opened Combinators
  import opened WindowsComponentModel
  import opened WindowsGrammar
  import opened WindowsStepGrammar

  datatype State = AtBeginning | SeenPrefix | NotAtBeginning

  /// The state after a component read from the front
  function NextState(c: WindowsComponent): State {
    if c.Prefix? then SeenPrefix else NotAtBeginning
  }

  /// Bytes the `move_to_next` closure skips as written: separators and,
  /// when normalising, a `.` unless the non-separator byte it looked at
  /// before was also a `.` (`lastSeen` is `last_seen_byte`; the `&&` in the
  /// closure asks `is_cur_dir` only about non-separators).
  function SkipLenAsWritten(normalize: bool, s: Bytes, lastSeen: byte): (n: nat)
    ensures n <= |s|
    decreases |s|
  {
    if s == [] then 0
    else if IsSepIn(normalize, s[0]) then 1 + SkipLenAsWritten(normalize, s[1..], lastSeen)
    else if normalize && s[0] == DOT && lastSeen != DOT then 1 + SkipLenAsWritten(normalize, s[1..], s[0])
    else 0
  }

  /// `move_to_next` as written: `take_until_byte`, which fails on empty
  /// input and when there is nothing to skip
  function MoveToNextAsWritten(normalize: bool, input: Bytes): (r: PResult<Bytes>)
    ensures r.Ok? <==> SkipLenAsWritten(normalize, input, NUL) > 0
    ensures r.Ok? ==> r.value + r.rest == input && r.rest == input[SkipLenAsWritten(normalize, input, NUL)..]
  {
    if input == [] then Fail
    else
      var n := SkipLenAsWritten(normalize, input, NUL);
      if n == 0 then Fail else Ok(input[n..], input[..n])
  }

  /// One skippable unit: a separator, or, when normalising, a lone `.`
  function SkipStep(normalize: bool, input: Bytes): (r: PResult<()>)
    ensures r.Ok? <==> |input| > 0 && (IsSepIn(normalize, input[0]) || (normalize && CurDirIn(true, input).Ok?))
    ensures r.Ok? ==> r.rest == input[1..]
  {
    var sep := s => SepIn(normalize, s);
    var dot := s => Map(t => CurDirIn(true, t), (_: WindowsComponent) => (), s);
    if normalize then
      AnyOfTwo(sep, dot, input);
      AnyOf([sep, dot], input)
    else SepIn(normalize, input)
  }

  /// Bytes skipped between components: every separator and, when
  /// normalising, every lone `.` (`maybe(take_while(..))`)
  function SkipLen(normalize: bool, input: Bytes): (n: nat)
    ensures n <= |input|
    ensures n < |input| ==> SkipStep(normalize, input[n..]).Fail?
  {
    TakeWhileLen(s => SkipStep(normalize, s), input)
  }

  /// The input is at the start of a name: at the end, or at a byte that is
  /// neither a separator nor (when normalising) a lone `.`
  predicate AtName(normalize: bool, s: Bytes) {
    s == [] || (!IsSepIn(normalize, s[0]) && !(normalize && CurDirIn(true, s).Ok?))
  }

  /// `any_of!(root_dir, cur_dir, filename)`, the grammar after a prefix:
  /// a root, a lone `.`, or a file name
  function AfterPrefixChoice(normalize: bool, input: Bytes): (r: PResult<WindowsComponent>)
    ensures r.Ok? <==> input != []
    ensures input != [] && IsSepIn(normalize, input[0]) ==> r == Ok(input[1..], RootDir)
    ensures input != [] && !IsSepIn(normalize, input[0]) && CurDirIn(normalize, input).Ok? ==> r == Ok(input[1..], CurDir)
    ensures input != [] && !IsSepIn(normalize, input[0]) && CurDirIn(normalize, input).Fail? ==> r == FileNameIn(normalize, input)
    ensures r.Ok? ==> |r.rest| < |input| && IsSuffix(r.rest, input) && !r.value.Prefix?
  {
    var root := s => RootDirIn(normalize, s);
    var cur := s => CurDirIn(normalize, s);
    var file := s => FileNameIn(normalize, s);
    AnyOfThree(root, cur, file, input);
    AnyOf([root, cur, file], input)
  }

  /// `any_of!(prefix_component, root_dir, cur_dir, filename)`, the grammar
  /// at the beginning: a prefix, or what may follow one
  function BeginChoice(normalize: bool, input: Bytes): (r: PResult<WindowsComponent>)
    ensures StepPrefixComponent(input).Ok? ==> r == Ok(StepPrefixComponent(input).rest, Prefix(StepPrefixComponent(input).value))
    ensures StepPrefixComponent(input).Fail? ==> r == AfterPrefixChoice(normalize, input)
  {
    var prefix := s => Map(StepPrefixComponent, (pc: PrefixComponent) => Prefix(pc), s);
    var root := s => RootDirIn(normalize, s);
    var cur := s => CurDirIn(normalize, s);
    var file := s => FileNameIn(normalize, s);
    AnyOfFour(prefix, root, cur, file, input);
    AnyOfThree(root, cur, file, input);
    AnyOf([prefix, root, cur, file], input)
  }

  /// The component grammar of each state: a prefix, a root, `.` or a file
  /// name at the beginning; a root, `.` or a file name after a prefix; a file
  /// name further on
  function Choice(state: State, normalize: bool, input: Bytes): (r: PResult<WindowsComponent>)
    ensures state != NotAtBeginning ==> (r.Ok? <==> input != [])
    ensures state == NotAtBeginning ==> r == FileNameIn(normalize, input)
    ensures r.Ok? ==> |r.rest| < |input| && IsSuffix(r.rest, input)
    ensures r.Ok? && r.value.Prefix? ==> state == AtBeginning && StepPrefixComponent(input) == Ok(r.rest, r.value.prefix)
  {
    match state
    case AtBeginning => BeginChoice(normalize, input)
    case SeenPrefix => AfterPrefixChoice(normalize, input)
    case NotAtBeginning => FileNameIn(normalize, input)
  }

  /// `parse_front` as written: the component, then `move_to_next`, which
  /// fails at the end of the input and also eats the separator after a
  /// prefix
  function ParseFrontAsWritten(state: State, normalize: bool, input: Bytes): PResult<WindowsComponent> {
    Suffixed(s => Choice(state, normalize, s), s => MoveToNextAsWritten(normalize, s), input)
  }

  /// `parse_front` with the skip made optional and kept away from the
  /// separator after a prefix, which is the root: the component of the
  /// state's grammar, then every separator and lone `.` after it.
  function ParseFront(state: State, normalize: bool, input: Bytes): (r: PResult<WindowsComponent>)
    ensures r.Ok? <==> input != [] && (state != NotAtBeginning || !IsSepIn(normalize, input[0]))
    ensures r.Ok? ==> |r.rest| < |input| && IsSuffix(r.rest, input)
    ensures r.Ok? ==> Choice(state, normalize, input).Ok? && r.value == Choice(state, normalize, input).value
    ensures r.Ok? && r.value.Prefix? ==> r.rest == Choice(state, normalize, input).rest
    ensures r.Ok? && !r.value.Prefix? ==> AtName(normalize, r.rest)
  {
    match Choice(state, normalize, input)
    case Fail => Fail
    case Ok(rest, c) =>
      if c.Prefix? then Ok(rest, c)
      else
        var n := SkipLen(normalize, rest);
        SuffixTrans(rest[n..], rest, input);
        Ok(rest[n..], c)
  }

  /// Number of trailing bytes that are separators or, when normalising,
  /// lone `.` components
  function TrailingSkip(normalize: bool, s: Bytes): (n: nat)
    ensures n <= |s|
    ensures n < |s| ==> !IsSepIn(normalize, s[|s| - n - 1])
    ensures n < |s| && normalize && s[|s| - n - 1] == DOT ==> |s| - n >= 2 && !IsSep(s[|s| - n - 2])
    ensures forall k | |s| - n <= k < |s| ::
              IsSepIn(normalize, s[k]) || (normalize && s[k] == DOT && (k == 0 || IsSep(s[k - 1])))
    decreases |s|
  {
    if s == [] then 0
    else
      var b := s[|s| - 1];
      if IsSepIn(normalize, b) || (normalize && b == DOT && (|s| == 1 || IsSep(s[|s| - 2]))) then
        var m := TrailingSkip(normalize, s[..|s| - 1]);
        assert forall k | 0 <= k < |s| - 1 :: s[..|s| - 1][k] == s[k];
        1 + m
      else 0
  }

  /// The input without its trailing separators and lone `.`s: a start of
  /// the input that is empty or ends with a byte of the last name
  function Stripped(normalize: bool, s: Bytes): (t: Bytes)
    ensures StartsWith(s, t)
    ensures t != [] ==> !IsSepIn(normalize, t[|t| - 1])
    ensures forall k | |t| <= k < |s| ::
              IsSepIn(normalize, s[k]) || (normalize && s[k] == DOT && (k == 0 || IsSep(s[k - 1])))
  {
    s[..|s| - TrailingSkip(normalize, s)]
  }

  /// `fully_consumed(filename)` on a segment without separators: the
  /// segment, classified
  function WholeFileName(normalize: bool, seg: Bytes): (r: PResult<WindowsComponent>)
    requires forall k | 0 <= k < |seg| :: !IsSepIn(normalize, seg[k])
    ensures r.Ok? <==> seg != []
    ensures r.Ok? ==> r.value == ClassifyIn(normalize, seg)
  {
    assert SegLenIn(normalize, seg) == |seg|;
    assert seg[..|seg|] == seg;
    FullyConsumed(s => FileNameIn(normalize, s), seg)
  }

  /// Length of the run of non-separators at the end of `s`
  function LastSegLen(normalize: bool, s: Bytes): (n: nat)
    ensures n <= |s|
    ensures forall k | |s| - n <= k < |s| :: !IsSepIn(normalize, s[k])
    ensures n < |s| ==> IsSepIn(normalize, s[|s| - n - 1])
  {
    if normalize then TrailingRunLen(NotSep, s) else TrailingRunLen(NotBackslash, s)
  }

  /// The non-empty segment after the last separator of `stripped`, read by
  /// `fully_consumed(filename)`; what comes before it stays
  function LastSegment(normalize: bool, stripped: Bytes): (r: PResult<WindowsComponent>)
    ensures r.Ok? <==> stripped != [] && !IsSepIn(normalize, stripped[|stripped| - 1])
    ensures r.Ok? ==> var n := LastSegLen(normalize, stripped);
                      r.rest == stripped[..|stripped| - n] && r.value == ClassifyIn(normalize, stripped[|stripped| - n..])
    ensures r.Ok? ==> r.value.Normal? || r.value.ParentDir? || (!normalize && r.value.CurDir?)
  {
    match if normalize then RTakeUntilByte1(NotSep, stripped) else RTakeUntilByte1(NotBackslash, stripped)
    case Fail => Fail
    case Ok(rest, seg) =>
      match WholeFileName(normalize, seg)
      case Fail => Fail
      case Ok(_, c) => Ok(rest, c)
  }

  /// What `LastSegment` leaves is the part of `stripped` before the
  /// segment, ending with a separator when it is not empty
  lemma LastSegmentRest(normalize: bool, stripped: Bytes)
    requires LastSegment(normalize, stripped).Ok?
    ensures var rest := LastSegment(normalize, stripped).rest;
            |rest| < |stripped| && StartsWith(stripped, rest) && (rest != [] ==> IsSepIn(normalize, rest[|rest| - 1]))
  {
  }

  /// `parse_back` as written: it skips with the front `move_to_next`, so
  /// it looks for separators and `.`s at the START of the input, and fails
  /// when there are none there
  function ParseBackAsWritten(state: State, normalize: bool, input: Bytes): PResult<WindowsComponent> {
    match MoveToNextAsWritten(normalize, input)
    case Fail => Fail
    case Ok(i1, _) =>
      if state == AtBeginning && i1 == [] then
        match ParseFrontAsWritten(state, normalize, input)
        case Ok(_, c) => Ok([], c)
        case Fail => Fail
      else LastSegment(normalize, i1)
  }

  /// `parse_back` on what follows the leading prefix, or on a path without
  /// one: the trailing separators and lone `.`s skipped, then the last
  /// segment; when only skipped bytes are left, the root or `.` they start
  /// with, as the front parser reads them
  function BodyBack(normalize: bool, body: Bytes): (r: PResult<WindowsComponent>)
    ensures r.Ok? <==> body != []
    ensures r.Ok? ==> |r.rest| < |body| && StartsWith(body, r.rest)
    ensures r.Ok? && r.rest != [] ==> IsSepIn(normalize, r.rest[|r.rest| - 1])
    ensures Stripped(normalize, body) == [] && r.Ok? ==>
              r.rest == [] && r.value == AfterPrefixChoice(normalize, body).value
    ensures Stripped(normalize, body) != [] ==> r == LastSegment(normalize, Stripped(normalize, body))
  {
    var stripped := Stripped(normalize, body);
    if stripped == [] then
      match AfterPrefixChoice(normalize, body)
      case Ok(_, c) => Ok([], c)
      case Fail => Fail
    else
      LastSegmentShape(normalize, body, stripped);
      LastSegment(normalize, stripped)
  }

  /// `parse_back` at the beginning: what follows the leading prefix is read
  /// from the back and the prefix stays in front of what is left; once
  /// nothing follows the prefix, the prefix itself
  function BeginBack(normalize: bool, input: Bytes): (r: PResult<WindowsComponent>)
    ensures r.Ok? <==> input != []
    ensures r.Ok? ==> |r.rest| < |input| && StartsWith(input, r.rest)
    ensures r.Ok? && r.rest != [] && !IsSepIn(normalize, r.rest[|r.rest| - 1]) ==>
              StepPrefixComponent(input).Ok? && r.rest == StepPrefixComponent(input).value.raw
  {
    match StepPrefixComponent(input)
    case Fail => BodyBack(normalize, input)
    case Ok(body, pc) =>
      if body == [] then Ok([], Prefix(pc))
      else
        var b := BodyBack(normalize, body);
        KeepFront(pc.raw, body, b.rest);
        Ok(pc.raw + b.rest, b.value)
  }

  /// A start of the back part, with the front part kept before it, is a
  /// start of the whole
  lemma KeepFront(front: Bytes, back: Bytes, start: Bytes)
    requires StartsWith(back, start)
    ensures StartsWith(front + back, front + start)
    ensures start != [] ==> (front + start)[|front + start| - 1] == start[|start| - 1]
  {
    assert (front + back)[..|front + start|] == front + back[..|start|];
  }

  /// `parse_back` with the trailing separators and lone `.`s skipped from
  /// the end: at the beginning the prefix is kept apart, and the root or
  /// `.` that starts what follows it is read when nothing else is left;
  /// further on, the last segment
  function ParseBack(state: State, normalize: bool, input: Bytes): PResult<WindowsComponent> {
    if state == AtBeginning then BeginBack(normalize, input)
    else LastSegment(normalize, Stripped(normalize, input))
  }

  /// The same for the last segment of `stripped`
  lemma LastSegmentShape(normalize: bool, original: Bytes, stripped: Bytes)
    requires StartsWith(original, stripped)
    ensures var r := LastSegment(normalize, stripped);
            (r.Ok? ==> |r.rest| < |original| && StartsWith(original, r.rest))
            && (r.Ok? && r.rest != [] ==> IsSepIn(normalize, r.rest[|r.rest| - 1]))
            && (original == [] ==> r.Fail?)
  {
    var r := LastSegment(normalize, stripped);
    if r.Ok? {
      LastSegmentRest(normalize, stripped);
      StartsWithTrans(original, stripped, r.rest);
    }
  }

  /// What `parse_back` leaves is a shorter start of its input, ending with
  /// a separator unless it is the leading prefix alone; past the beginning
  /// it reads only names, `..`, and `.` in a verbatim path; it fails
  /// exactly on empty input
  lemma ParseBackShape(state: State, normalize: bool, input: Bytes)
    ensures var r := ParseBack(state, normalize, input);
            (r.Ok? ==> |r.rest| < |input| && StartsWith(input, r.rest))
            && (r.Ok? && r.rest != [] && !IsSepIn(normalize, r.rest[|r.rest| - 1]) ==>
                  state == AtBeginning && StepPrefixComponent(input).Ok? && r.rest == StepPrefixComponent(input).value.raw)
            && (r.Ok? && state != AtBeginning ==> r.value.Normal? || r.value.ParentDir? || (!normalize && r.value.CurDir?))
            && (input == [] ==> r.Fail?)
  {
    if state != AtBeginning {
      LaterBackShape(normalize, input, Stripped(normalize, input), ParseBack(state, normalize, input));
    } else {
      BeginBackShape(normalize, input, ParseBack(state, normalize, input));
    }
  }

  /// `ParseBackShape` at the beginning
  lemma BeginBackShape(normalize: bool, input: Bytes, r: PResult<WindowsComponent>)
    requires r == BeginBack(normalize, input)
    ensures r.Ok? ==> |r.rest| < |input| && StartsWith(input, r.rest)
    ensures r.Ok? && r.rest != [] && !IsSepIn(normalize, r.rest[|r.rest| - 1]) ==>
              StepPrefixComponent(input).Ok? && r.rest == StepPrefixComponent(input).value.raw
    ensures input == [] ==> r.Fail?
  {
  }

  /// `ParseBackShape` past the beginning
  lemma LaterBackShape(normalize: bool, input: Bytes, stripped: Bytes, r: PResult<WindowsComponent>)
    requires stripped == Stripped(normalize, input) && r == LastSegment(normalize, stripped)
    ensures r.Ok? ==> |r.rest| < |input| && StartsWith(input, r.rest)
    ensures r.Ok? && r.rest != [] ==> IsSepIn(normalize, r.rest[|r.rest| - 1])
    ensures r.Ok? ==> r.value.Normal? || r.value.ParentDir? || (!normalize && r.value.CurDir?)
    ensures input == [] ==> r.Fail?
  {
    LastSegmentShape(normalize, input, stripped);
  }

  /// The components read from the front until the parser stops
  function FrontList(state: State, normalize: bool, input: Bytes): seq<WindowsComponent>
    decreases |input|
  {
    match ParseFront(state, normalize, input)
    case Fail => []
    case Ok(rest, c) => [c] + FrontList(NextState(c), normalize, rest)
  }

  /// The components read from the front as written, until it fails
  function FrontListAsWritten(state: State, normalize: bool, input: Bytes): seq<WindowsComponent>
    decreases |input|
  {
    match ParseFrontAsWritten(state, normalize, input)
    case Fail => []
    case Ok(rest, c) =>
      if |rest| < |input| then [c] + FrontListAsWritten(NextState(c), normalize, rest) else [c]
  }

  /// `Parser`: the unparsed input, the state, and whether to normalise,
  /// which is decided once from the whole input
  class Parser {
    var input: Bytes
    var state: State
    const normalize: bool

    /// `new`: normalising unless the input starts with exactly `\\?\`
    constructor (input: Bytes)
      ensures this.input == input && state == AtBeginning
      ensures normalize <==> !StartsWith(input, VERBATIM_START)
    {
      this.input := input;
      state := AtBeginning;
      normalize := !StartsWith(input, VERBATIM_START);
    }

    /// `has_more`
    function HasMore(): bool
      reads this
    {
      input != []
    }

    /// `remaining`
    function Remaining(): Bytes
      reads this
    {
      input
    }

    /// The next front component, as a function of the parser's fields
    function PeekFront(): (r: Option<WindowsComponent>)
      reads this
      ensures r.Some? <==> ParseFront(state, normalize, input).Ok?
      ensures r.Some? ==> r.value == ParseFront(state, normalize, input).value
    {
      match ParseFront(state, normalize, input)
      case Ok(_, c) => Some(c)
      case Fail => None
    }

    /// `next_front`: on success the input moves past the component; the
    /// state becomes `SeenPrefix` after a prefix and `NotAtBeginning`
    /// otherwise; on failure nothing changes
    method NextFront() returns (r: Option<WindowsComponent>)
      modifies this
      ensures r == old(PeekFront())
      ensures r.Some? ==> input == ParseFront(old(state), normalize, old(input)).rest && state == NextState(r.value)
      ensures r.Some? ==> |input| < |old(input)| && IsSuffix(input, old(input))
      ensures r.None? ==> input == old(input) && state == old(state)
    {
      match ParseFront(state, normalize, input)
      case Ok(rest, c) =>
        input := rest;
        if c.Prefix? {
          state := SeenPrefix;
        } else {
          state := NotAtBeginning;
        }
        r := Some(c);
      case Fail =>
        r := None;
    }

    /// `next_back`: on success the input loses the component at its end;
    /// the state never changes
    method NextBack() returns (r: Option<WindowsComponent>)
      modifies this
      ensures r.Some? <==> ParseBack(old(state), normalize, old(input)).Ok?
      ensures r.Some? ==> r.value == ParseBack(old(state), normalize, old(input)).value
      ensures r.Some? ==> input == ParseBack(old(state), normalize, old(input)).rest
      ensures r.Some? ==> |input| < |old(input)| && StartsWith(old(input), input)
      ensures r.None? ==> input == old(input)
      ensures state == old(state)
    {
      ParseBackShape(state, normalize, input);
      match ParseBack(state, normalize, input)
      case Ok(rest, c) =>
        input := rest;
        r := Some(c);
      case Fail =>
        r := None;
    }
  }
}
