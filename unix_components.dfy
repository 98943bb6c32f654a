/// `UnixComponents`, the iterator over the components of a Unix path, and
/// `UnixComponent::try_from`, which reads a single component.
module UnixComponentsModel {
  import opened ByteSeq
  import opened Combinators
  import opened UnixComponentModel
  import opened UnixGrammar
  import opened UnixPathParser
  import opened UnixIncremental
  import opened UnixIncrementalProperties

  /// The outcome of `try_from`: a component, or the reason there is none
  datatype TryOutcome = Parsed(value: UnixComponent) | ParseError(msg: string)

  const NO_COMPONENT: string := "no component found"
  const MORE_THAN_ONE: string := "found more than one component"

  /// A fresh front parser yields the root exactly when the path starts
  /// with a separator; once past the beginning it never does
  lemma FrontRootIff(state: State, input: Bytes)
    ensures (ParseFront(state, input).Ok? && ParseFront(state, input).value == RootDir)
        <==> state == AtBeginning && input != [] && input[0] == SLASH
  {
    if state == AtBeginning {
      AnyOfFour(ParseRootDir, ParseParentDir, ParseCurDir, ParseNormal, input);
    }
  }

  /// Fresh front readings of two NUL-free paths agree exactly when their
  /// whole-path readings do
  lemma FreshListsAgree(a: Bytes, b: Bytes)
    ensures a != [] && b != [] && NulFree(a) && NulFree(b) ==>
              (FrontList(AtBeginning, a) == FrontList(AtBeginning, b) <==> SpecComponents(a) == SpecComponents(b))
  {
    if a != [] && b != [] && NulFree(a) && NulFree(b) {
      FrontAgrees(a);
      FrontAgrees(b);
    }
  }

  /// The components of a path, read from either end
  class UnixComponents {
    var parser: UnixIncremental.Parser

    /// `new`: an iterator at the beginning of `path`
    constructor (path: Bytes)
      ensures fresh(parser) && parser.input == path && parser.state == AtBeginning
    {
      parser := new UnixIncremental.Parser(path);
    }

    /// `as_bytes`: the part of the path not yet iterated over
    function AsBytes(): Bytes
      reads this, parser
    {
      parser.Remaining()
    }

    /// `has_root`: a copy of the parser would read the root next, which
    /// happens only before the first component of a path starting with `/`
    function HasRoot(): (b: bool)
      reads this, parser
      ensures b <==> parser.state == AtBeginning && parser.input != [] && parser.input[0] == SLASH
    {
      FrontRootIff(parser.state, parser.input);
      match parser.PeekFront()
      case Some(RootDir) => true
      case _ => false
    }

    /// `is_absolute`: a Unix path is absolute exactly when it has a root
    function IsAbsolute(): (b: bool)
      reads this, parser
      ensures b <==> parser.state == AtBeginning && parser.input != [] && parser.input[0] == SLASH
    {
      HasRoot()
    }

    /// `next`: the next front component, the remaining bytes shrinking to
    /// what the parser left
    method Next() returns (r: Option<UnixComponent>)
      modifies parser
      ensures r.Some? <==> ParseFront(old(parser.state), old(parser.input)).Ok?
      ensures r.Some? ==> r.value == ParseFront(old(parser.state), old(parser.input)).value
      ensures r.Some? ==> AsBytes() == ParseFront(old(parser.state), old(parser.input)).rest
      ensures r.Some? ==> |AsBytes()| < |old(AsBytes())| && IsSuffix(AsBytes(), old(AsBytes()))
      ensures r.Some? ==> !HasRoot()
      ensures r.None? ==> AsBytes() == old(AsBytes()) && parser.state == old(parser.state)
    {
      r := parser.NextFront();
    }

    /// `next_back`: the last component, the remaining bytes shrinking to
    /// the part before it
    method NextBack() returns (r: Option<UnixComponent>)
      modifies parser
      ensures r.Some? <==> ParseBack(old(parser.state), old(parser.input)).Ok?
      ensures r.Some? ==> r.value == ParseBack(old(parser.state), old(parser.input)).value
      ensures r.Some? ==> AsBytes() == ParseBack(old(parser.state), old(parser.input)).rest
      ensures r.Some? ==> |AsBytes()| < |old(AsBytes())| && StartsWith(old(AsBytes()), AsBytes())
      ensures r.None? ==> AsBytes() == old(AsBytes())
      ensures parser.state == old(parser.state)
    {
      r := parser.NextBack();
    }

    /// What `eq` and `cmp` compare: the components of a fresh iterator over
    /// the remaining bytes
    function Fresh(): seq<UnixComponent>
      reads this, parser
    {
      FrontList(AtBeginning, parser.input)
    }

    /// `eq`: both remaining paths, read afresh, give the same components,
    /// which for NUL-free paths are those of the whole-path reading
    function Eq(other: UnixComponents): (b: bool)
      reads this, parser, other, other.parser
      ensures parser.input == other.parser.input ==> b
      ensures parser.input != [] && other.parser.input != [] && NulFree(parser.input) && NulFree(other.parser.input) ==>
                (b <==> SpecComponents(parser.input) == SpecComponents(other.parser.input))
    {
      FreshListsAgree(parser.input, other.parser.input);
      Fresh() == other.Fresh()
    }

    /// `cmp`: the components read afresh, compared in order; `partial_cmp`
    /// is always `Some` of it
    function Cmp(other: UnixComponents): (o: Ordering)
      reads this, parser, other, other.parser
      ensures o == Equal <==> Eq(other)
    {
      SeqCmp(Fresh(), other.Fresh())
    }
  }

  /// Swapping the iterators reverses their order
  lemma ComponentsCmpAntisymmetric(a: UnixComponents, b: UnixComponents)
    ensures a.Cmp(b) == b.Cmp(a).Reverse()
  {
    SeqCmpAntisymmetric(a.Fresh(), b.Fresh());
    SeqCmpAntisymmetric(b.Fresh(), a.Fresh());
  }

  /// `try_from`: the first front component, provided a second call to
  /// `next` finds nothing
  function TryFrom(path: Bytes): (r: TryOutcome)
    ensures r.Parsed? <==> |FrontList(AtBeginning, path)| == 1
    ensures r.Parsed? ==> FrontList(AtBeginning, path) == [r.value]
    ensures r.ParseError? ==> r.msg == if FrontList(AtBeginning, path) == [] then NO_COMPONENT else MORE_THAN_ONE
  {
    match ParseFront(AtBeginning, path)
    case Fail => ParseError(NO_COMPONENT)
    case Ok(rest, c) =>
      if ParseFront(NotAtBeginning, rest).Ok? then ParseError(MORE_THAN_ONE) else Parsed(c)
  }

  /// `try_from` as written, over the front parser whose skip fails when
  /// there is nothing to skip
  function TryFromAsWritten(path: Bytes): TryOutcome {
    match ParseFrontAsWritten(AtBeginning, path)
    case Fail => ParseError(NO_COMPONENT)
    case Ok(rest, c) =>
      if ParseFrontAsWritten(NotAtBeginning, rest).Ok? then ParseError(MORE_THAN_ONE) else Parsed(c)
  }

  /// A non-empty NUL-free path is one component exactly when its
  /// whole-path reading has one component, and then it is that one
  lemma TryFromSpec(path: Bytes)
    requires path != [] && NulFree(path)
    ensures TryFrom(path).Parsed? <==> |SpecComponents(path)| == 1
    ensures TryFrom(path).Parsed? ==> SpecComponents(path) == [TryFrom(path).value]
    ensures TryFrom(path).ParseError? ==> TryFrom(path).msg == MORE_THAN_ONE
  {
    FrontAgrees(path);
    FrontFirst(path);
  }

  /// `/` is the root alone
  lemma TryFromRoot(root: Bytes)
    requires root == [SLASH]
    ensures TryFrom(root) == Parsed(RootDir)
  {
    FrontReadsRoot(root);
  }

  /// `.` is the current directory
  lemma TryFromCurDir(dot: Bytes)
    requires dot == CURRENT_DIR
    ensures TryFrom(dot) == Parsed(CurDir)
  {
    FrontReadsCurDir(dot);
  }

  /// `..` is the parent directory
  lemma TryFromParentDir(dots: Bytes)
    requires dots == PARENT_DIR
    ensures TryFrom(dots) == Parsed(ParentDir)
  {
    FrontReadsParentDir(dots);
  }

  /// `file.txt` is a normal name
  lemma TryFromFileName(name: Bytes)
    requires name == [102, 105, 108, 101, DOT, 116, 120, 116]
    ensures TryFrom(name) == Parsed(Normal(name))
  {
    assert NulFree(name) && forall k | 0 <= k < |name| :: name[k] != SLASH;
    FrontReadsOneSegment(name);
  }

  /// A lone segment followed by one separator reads as that segment
  lemma FrontReadsSegmentThenSeparator(seg: Bytes, input: Bytes)
    requires seg != [] && NulFree(seg) && forall k | 0 <= k < |seg| :: seg[k] != SLASH
    requires input == seg + [SLASH]
    ensures ParseFront(AtBeginning, input) == Ok([], Classify(seg))
  {
    assert forall k | 0 <= k < |seg| :: input[k] == seg[k];
    assert NulFree(input);
    FrontFirst(input);
    FirstMatchUnique(IsSlash, input, |seg|);
    assert input[..|seg|] == seg && input[|seg|..] == [SLASH];
    assert LeadingSlashes([SLASH]) == 1;
  }

  /// `dir/` is the name `dir`: the trailing separator goes with it
  lemma TryFromTrailingSeparator(input: Bytes, dir: Bytes)
    requires dir == [100, 105, 114] && input == dir + [SLASH]
    ensures TryFrom(input) == Parsed(Normal(dir))
  {
    assert NulFree(dir) && forall k | 0 <= k < |dir| :: dir[k] != SLASH;
    FrontReadsSegmentThenSeparator(dir, input);
  }

  /// The parser past the beginning reads a name that starts right away
  lemma LaterReadsLeadingName(name: Bytes)
    requires name != [] && name[0] != SLASH && name[0] != DOT && name[0] != NUL
    ensures ParseFrontAsWritten(NotAtBeginning, name).Fail?
    ensures ParseFront(NotAtBeginning, name).Ok?
  {
    assert CurDirOrSeparator(name).Fail?;
    ParseFrontLater(name);
    assert SkipLen(name) == 0 by {
      assert name[0..] == name;
    }
    assert name[0..] == name;
    AnyOfTwo(ParseParentDir, ParseNormal, name);
  }

  /// `/file` is two components, so `try_from` reports more than one; as
  /// written, the second call fails for want of a separator to skip, and
  /// `try_from` returns the root alone
  lemma TryFromTwoComponents(input: Bytes, name: Bytes)
    requires name == [102, 105, 108, 101] && input == [SLASH] + name
    ensures TryFrom(input) == ParseError(MORE_THAN_ONE)
    ensures TryFromAsWritten(input) == Parsed(RootDir)
  {
    assert NulFree(input);
    FrontFirst(input);
    assert input[1..] == name;
    assert LeadingSlashes(name) == 0;
    assert name[0..] == name;
    assert ParseFrontAsWritten(AtBeginning, input) == ParseFront(AtBeginning, input);
    LaterReadsLeadingName(name);
  }
}
