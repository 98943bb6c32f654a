/// The slice-parser combinators every grammar of the library is built from.
/// A parser takes the unparsed input and either fails or returns what is left
/// of it together with a value.  The combinators take the input as their last
/// argument; a grammar passes them parsers (named functions or lambdas).
module Combinators {
  import opened ByteSeq

  datatype PResult<T> = Ok(rest: Bytes, value: T) | Fail

  type Parser<T> = Bytes -> PResult<T>

  /// Every success strictly shortens the input and leaves a suffix of it:
  /// the condition under which repeating a parser ends.
  ghost predicate Consuming<T>(p: Parser<T>) {
    forall s :: p(s).Ok? ==> |p(s).rest| < |s| && IsSuffix(p(s).rest, s)
  }

  // ---------------------------------------------------------------------------
  // Sequencing and choice

  /// `any_of!`: the alternatives are tried left to right and the first success
  /// is returned unchanged; it fails only when every alternative fails.
  function AnyOf<T>(ps: seq<Parser<T>>, input: Bytes): (r: PResult<T>)
    ensures r.Ok? <==> exists i | 0 <= i < |ps| :: ps[i](input).Ok?
    ensures r.Ok? ==> exists i | 0 <= i < |ps| :: r == ps[i](input) && forall j | 0 <= j < i :: ps[j](input).Fail?
    decreases |ps|
  {
    if |ps| == 0 then Fail
    else if ps[0](input).Ok? then ps[0](input)
    else
      var r := AnyOf(ps[1..], input);
      assert forall i | 0 <= i < |ps| - 1 :: ps[1..][i] == ps[i + 1];
      r
  }

  /// `any_of!` with two alternatives
  lemma AnyOfTwo<T>(p: Parser<T>, q: Parser<T>, input: Bytes)
    ensures AnyOf([p, q], input) == if p(input).Ok? then p(input) else q(input)
  {
    assert [p, q][1..] == [q];
    assert [q][1..] == [];
  }

  /// `any_of!` with three alternatives
  lemma AnyOfThree<T>(p: Parser<T>, q: Parser<T>, t: Parser<T>, input: Bytes)
    ensures AnyOf([p, q, t], input) == if p(input).Ok? then p(input) else if q(input).Ok? then q(input) else t(input)
  {
    assert [p, q, t][1..] == [q, t];
    AnyOfTwo(q, t, input);
  }

  /// `any_of!` with four alternatives
  lemma AnyOfFour<T>(p: Parser<T>, q: Parser<T>, t: Parser<T>, u: Parser<T>, input: Bytes)
    ensures AnyOf([p, q, t, u], input)
         == if p(input).Ok? then p(input) else if q(input).Ok? then q(input) else if t(input).Ok? then t(input) else u(input)
  {
    assert [p, q, t, u][1..] == [q, t, u];
    AnyOfThree(q, t, u, input);
  }

  /// `any_of!` with five alternatives
  lemma AnyOfFive<T>(p: Parser<T>, q: Parser<T>, t: Parser<T>, u: Parser<T>, v: Parser<T>, input: Bytes)
    ensures AnyOf([p, q, t, u, v], input)
         == if p(input).Ok? then p(input) else AnyOf([q, t, u, v], input)
  {
    assert [p, q, t, u, v][1..] == [q, t, u, v];
  }

  /// `any_of!` with six alternatives
  lemma AnyOfSix<T>(p: Parser<T>, q: Parser<T>, t: Parser<T>, u: Parser<T>, v: Parser<T>, w: Parser<T>, input: Bytes)
    ensures AnyOf([p, q, t, u, v, w], input)
         == if p(input).Ok? then p(input) else if q(input).Ok? then q(input) else if t(input).Ok? then t(input)
            else if u(input).Ok? then u(input) else if v(input).Ok? then v(input) else w(input)
  {
    assert [p, q, t, u, v, w][1..] == [q, t, u, v, w];
    AnyOfFive(q, t, u, v, w, input);
    AnyOfFour(t, u, v, w, input);
  }

  /// `map`: the parser's value transformed by `f`, the rest untouched
  function Map<T, U>(p: Parser<T>, f: T -> U, input: Bytes): (r: PResult<U>)
    ensures r.Ok? <==> p(input).Ok?
    ensures r.Ok? ==> r.rest == p(input).rest && r.value == f(p(input).value)
  {
    match p(input)
    case Ok(rest, v) => Ok(rest, f(v))
    case Fail => Fail
  }

  /// `divided`: three parsers in a row, keeping the first and third values
  function Divided<T1, T2, T3>(left: Parser<T1>, middle: Parser<T2>, right: Parser<T3>, input: Bytes): (r: PResult<(T1, T3)>)
    ensures r.Ok? <==> left(input).Ok? && middle(left(input).rest).Ok? && right(middle(left(input).rest).rest).Ok?
    ensures r.Ok? ==> (r.rest == right(middle(left(input).rest).rest).rest &&
                       r.value == (left(input).value, right(middle(left(input).rest).rest).value))
  {
    match left(input)
    case Fail => Fail
    case Ok(i1, v1) =>
      match middle(i1)
      case Fail => Fail
      case Ok(i2, _) =>
        match right(i2)
        case Fail => Fail
        case Ok(i3, v3) => Ok(i3, (v1, v3))
  }

  /// `prefixed`: two parsers in a row, keeping the second value
  function Prefixed<T1, T2>(prefix: Parser<T1>, p: Parser<T2>, input: Bytes): (r: PResult<T2>)
    ensures r.Ok? <==> prefix(input).Ok? && p(prefix(input).rest).Ok?
    ensures r.Ok? ==> r == p(prefix(input).rest)
  {
    match prefix(input)
    case Fail => Fail
    case Ok(i1, _) => p(i1)
  }

  /// `suffixed`: two parsers in a row, keeping the first value
  function Suffixed<T1, T2>(p: Parser<T1>, suffix: Parser<T2>, input: Bytes): (r: PResult<T1>)
    ensures r.Ok? <==> p(input).Ok? && suffix(p(input).rest).Ok?
    ensures r.Ok? ==> r.rest == suffix(p(input).rest).rest && r.value == p(input).value
  {
    match p(input)
    case Fail => Fail
    case Ok(i1, v) =>
      match suffix(i1)
      case Fail => Fail
      case Ok(i2, _) => Ok(i2, v)
  }

  /// `maybe`: never fails; a failure of `p` becomes `None` with the input untouched
  function Maybe<T>(p: Parser<T>, input: Bytes): (r: PResult<Option<T>>)
    ensures r.Ok?
    ensures r.value.None? <==> p(input).Fail?
    ensures r.value.None? ==> r.rest == input
    ensures r.value.Some? ==> r.rest == p(input).rest && r.value.value == p(input).value
  {
    match p(input)
    case Ok(rest, v) => Ok(rest, Some(v))
    case Fail => Ok(input, None)
  }

  // ---------------------------------------------------------------------------
  // Repetition

  /// State of the `while let Some(input) = next.take()` loop of `one_or_more`
  datatype LoopState<T> = LoopState(next: Option<Bytes>, results: seq<T>)

  /// One turn of the `one_or_more` loop exactly as written: both the success
  /// and the failure arm store `Some(input)` back into `next`.
  function OneOrMoreStepAsWritten<T>(p: Parser<T>, st: LoopState<T>): LoopState<T> {
    match st.next
    case None => st
    case Some(input) =>
      match p(input)
      case Ok(rest, v) => LoopState(Some(rest), st.results + [v])
      case Fail => LoopState(Some(input), st.results)
  }

  /// The loop state after `n` turns
  function IterateAsWritten<T>(p: Parser<T>, st: LoopState<T>, n: nat): LoopState<T>
    decreases n
  {
    if n == 0 then st else IterateAsWritten(p, OneOrMoreStepAsWritten(p, st), n - 1)
  }

  /// The loop as written never exits: from its first state, the guard
  /// `next.is_some()` still holds after any number of turns.
  lemma {:induction false} OneOrMoreNeverExits<T>(p: Parser<T>, st: LoopState<T>, n: nat)
    requires st.next.Some?
    ensures IterateAsWritten(p, st, n).next.Some?
    decreases n
  {
    if n > 0 {
      OneOrMoreNeverExits(p, OneOrMoreStepAsWritten(p, st), n - 1);
    }
  }

  /// Once the parser fails, a turn changes nothing at all: the loop spins on
  /// the same input forever, e.g. `one_or_more(separator)` on any input.
  lemma {:induction false} OneOrMoreSpinsAfterFailure<T>(p: Parser<T>, input: Bytes, results: seq<T>, n: nat)
    requires p(input).Fail?
    ensures IterateAsWritten(p, LoopState(Some(input), results), n) == LoopState(Some(input), results)
    decreases n
  {
    if n > 0 {
      OneOrMoreSpinsAfterFailure(p, input, results, n - 1);
    }
  }

  /// Applies `p` until it first fails: the values it produced and the input
  /// at which it failed.
  function Many<T>(p: Parser<T>, input: Bytes): (r: (Bytes, seq<T>))
    requires Consuming(p)
    ensures IsSuffix(r.0, input)
    ensures p(r.0).Fail?
    ensures r.1 == [] <==> p(input).Fail?
    ensures r.1 == [] ==> r.0 == input
    ensures |r.1| <= |input| - |r.0|
    decreases |input|
  {
    match p(input)
    case Fail => (input, [])
    case Ok(rest, v) =>
      var (tail, vs) := Many(p, rest);
      SuffixTrans(tail, rest, input);
      (tail, [v] + vs)
  }

  /// `Many` after one successful application of `p`
  lemma ManyStep<T>(p: Parser<T>, input: Bytes)
    requires Consuming(p) && p(input).Ok?
    ensures Many(p, input) == (Many(p, p(input).rest).0, [p(input).value] + Many(p, p(input).rest).1)
  {
  }

  /// One successful application of `p` moves its value from the input's
  /// repetitions to the values collected so far
  lemma ManyUnfold<T>(p: Parser<T>, input: Bytes, results: seq<T>)
    requires Consuming(p) && p(input).Ok?
    ensures Many(p, input).0 == Many(p, p(input).rest).0
    ensures results + Many(p, input).1 == (results + [p(input).value]) + Many(p, p(input).rest).1
  {
  }

  /// `one_or_more` with the loop leaving at the first failure (the exit the
  /// written loop is missing): fails when `p` does not succeed once,
  /// otherwise stops exactly where `p` first fails.
  function OneOrMore<T>(p: Parser<T>, input: Bytes): (r: PResult<seq<T>>)
    requires Consuming(p)
    ensures r.Ok? <==> p(input).Ok?
    ensures r.Ok? ==> |r.value| >= 1 && |r.rest| < |input| && IsSuffix(r.rest, input) && p(r.rest).Fail?
  {
    var (rest, vs) := Many(p, input);
    if vs == [] then Fail else Ok(rest, vs)
  }

  /// The loop of `one_or_more`, with the failure arm leaving the loop
  method OneOrMoreLoop<T>(p: Parser<T>, input: Bytes) returns (r: PResult<seq<T>>)
    requires Consuming(p)
    ensures r == OneOrMore(p, input)
  {
    var results: seq<T> := [];
    var next: Option<Bytes> := Some(input);
    var last := input;
    while next.Some?
      invariant next.Some? ==> Many(p, input).0 == Many(p, next.value).0
      invariant next.Some? ==> Many(p, input).1 == results + Many(p, next.value).1
      invariant next.None? ==> Many(p, input) == (last, results)
      decreases if next.Some? then |next.value| + 1 else 0
    {
      var cur := next.value;
      next := None;
      var res := p(cur);
      if res.Ok? {
        ManyUnfold(p, cur, results);
        next := Some(res.rest);
        results := results + [res.value];
      } else {
        assert results + Many(p, cur).1 == results;
        last := cur;
      }
    }
    if results == [] {
      return Fail;
    }
    r := Ok(last, results);
  }

  /// `zero_or_more`, i.e. `maybe(one_or_more(p))` with `unwrap_or_default`:
  /// never fails, and stops where `p` first fails.
  function ZeroOrMore<T>(p: Parser<T>, input: Bytes): (r: PResult<seq<T>>)
    requires Consuming(p)
    ensures r.Ok? && IsSuffix(r.rest, input) && p(r.rest).Fail?
    ensures r.value == [] <==> p(input).Fail?
    ensures r.value == [] ==> r.rest == input
    ensures r.rest == Many(p, input).0 && r.value == Many(p, input).1
  {
    match Maybe(s => OneOrMore(p, s), input)
    case Ok(rest, Some(vs)) => Ok(rest, vs)
    case Ok(rest, None) => Ok(rest, [])
  }

  // ---------------------------------------------------------------------------
  // Byte-level parsers

  /// Index of the first byte of `s` satisfying `pred`, or `|s|`
  function FirstMatch(pred: byte -> bool, s: Bytes): (i: nat)
    ensures i <= |s|
    ensures forall k | 0 <= k < i :: !pred(s[k])
    ensures i < |s| ==> pred(s[i])
    decreases |s|
  {
    if s == [] then 0
    else if pred(s[0]) then 0
    else 1 + FirstMatch(pred, s[1..])
  }

  /// The first match is the only position with no match before it
  lemma FirstMatchUnique(pred: byte -> bool, s: Bytes, n: nat)
    requires n <= |s|
    requires forall k | 0 <= k < n :: !pred(s[k])
    requires n < |s| ==> pred(s[n])
    ensures FirstMatch(pred, s) == n
  {
  }

  /// `take_until_byte`: fails on empty input and when the first byte already
  /// satisfies `pred`; otherwise splits the input at the first byte that does.
  function TakeUntilByte(pred: byte -> bool, input: Bytes): (r: PResult<Bytes>)
    ensures r.Ok? <==> |input| > 0 && !pred(input[0])
    ensures r.Ok? ==> r.value + r.rest == input && |r.value| > 0
    ensures r.Ok? ==> forall k | 0 <= k < |r.value| :: !pred(r.value[k])
    ensures r.Ok? ==> r.rest == [] || pred(r.rest[0])
  {
    if |input| == 0 then Fail
    else
      var i := FirstMatch(pred, input);
      if i == 0 then Fail else Ok(input[i..], input[..i])
  }

  /// `take(cnt)` as written: `nth(cnt)` needs a byte at index `cnt`, so it
  /// fails on an input of exactly `cnt` bytes.
  function TakeAsWritten(cnt: nat, input: Bytes): (r: PResult<Bytes>)
    ensures r.Ok? <==> |input| > cnt
    ensures r.Ok? ==> r.value == input[..cnt] && r.rest == input[cnt..]
  {
    if cnt < |input| then Ok(input[cnt..], input[..cnt]) else Fail
  }

  /// `take(1)` as written rejects an input of exactly one byte
  lemma TakeOneOfOneByteFails(b: byte)
    ensures TakeAsWritten(1, [b]).Fail?
  {
  }

  /// `take(cnt)` as documented ("failing if not enough bytes are available"):
  /// takes exactly `cnt` bytes whenever there are at least that many.
  function Take(cnt: nat, input: Bytes): (r: PResult<Bytes>)
    ensures r.Ok? <==> |input| >= cnt
    ensures r.Ok? ==> r.value + r.rest == input && |r.value| == cnt
  {
    if cnt <= |input| then Ok(input[cnt..], input[..cnt]) else Fail
  }

  /// `bytes(tag)`: fails on empty input, otherwise succeeds exactly when the
  /// input starts with `tag`, consuming it.
  function BytesTag(tag: Bytes, input: Bytes): (r: PResult<Bytes>)
    ensures r.Ok? <==> |input| > 0 && StartsWith(input, tag)
    ensures r.Ok? ==> r.value == tag && r.value + r.rest == input
  {
    if |input| == 0 then Fail
    else if |input| < |tag| then Fail
    else if input[..|tag|] == tag then Ok(input[|tag|..], input[..|tag|])
    else Fail
  }

  /// `byte(x)`: consumes exactly one byte, which must be `x`
  function Byte(x: byte, input: Bytes): (r: PResult<byte>)
    ensures r.Ok? <==> |input| > 0 && input[0] == x
    ensures r.Ok? ==> r.value == x && r.rest == input[1..]
  {
    if |input| == 0 then Fail
    else if input[0] == x then Ok(input[1..], x)
    else Fail
  }

  // ---------------------------------------------------------------------------
  // Helpers the grammars use whose definitions are not part of the shown
  // source; each is the smallest reading of its name and uses.

  /// `empty`: succeeds, consuming nothing, exactly on empty input
  function Empty(input: Bytes): (r: PResult<()>)
    ensures r.Ok? <==> input == []
    ensures r.Ok? ==> r.rest == input
  {
    if input == [] then Ok(input, ()) else Fail
  }

  /// `peek(p)`: the outcome of `p` without consuming anything
  function Peek<T>(p: Parser<T>, input: Bytes): (r: PResult<T>)
    ensures r.Ok? <==> p(input).Ok?
    ensures r.Ok? ==> r.rest == input && r.value == p(input).value
  {
    match p(input)
    case Ok(_, v) => Ok(input, v)
    case Fail => Fail
  }

  /// `not(p)`: succeeds, consuming nothing, exactly when `p` fails
  function Not<T>(p: Parser<T>, input: Bytes): (r: PResult<()>)
    ensures r.Ok? <==> p(input).Fail?
    ensures r.Ok? ==> r.rest == input
  {
    if p(input).Ok? then Fail else Ok(input, ())
  }

  /// `fully_consumed(p)`: `p`'s success when it leaves nothing behind
  function FullyConsumed<T>(p: Parser<T>, input: Bytes): (r: PResult<T>)
    ensures r.Ok? <==> p(input).Ok? && p(input).rest == []
    ensures r.Ok? ==> r == p(input)
  {
    match p(input)
    case Ok(rest, v) => if rest == [] then Ok(rest, v) else Fail
    case Fail => Fail
  }

  /// Number of leading bytes `take_while(p)` takes: it steps one byte at a
  /// time for as long as `p` succeeds at the current position.
  function TakeWhileLen<T>(p: Parser<T>, s: Bytes): (n: nat)
    ensures n <= |s|
    ensures forall k | 0 <= k < n :: p(s[k..]).Ok?
    ensures n < |s| ==> p(s[n..]).Fail?
    decreases |s|
  {
    if s != [] && p(s).Ok? then
      var n := 1 + TakeWhileLen(p, s[1..]);
      assert forall k | 1 <= k <= |s| :: s[1..][k - 1..] == s[k..];
      n
    else 0
  }

  /// `take_while(p)`: the longest run of positions at which `p` succeeds;
  /// fails when that run is empty.
  function TakeWhile<T>(p: Parser<T>, input: Bytes): (r: PResult<Bytes>)
    ensures r.Ok? <==> |input| > 0 && p(input).Ok?
    ensures r.Ok? ==> r.value + r.rest == input && |r.value| > 0
    ensures r.Ok? ==> forall k | 0 <= k < |r.value| :: p(input[k..]).Ok?
    ensures r.Ok? ==> r.rest == [] || p(r.rest).Fail?
  {
    var n := TakeWhileLen(p, input);
    if n == 0 then Fail else Ok(input[n..], input[..n])
  }

  /// Length of the longest suffix of `s` whose bytes all satisfy `keep`
  function TrailingRunLen(keep: byte -> bool, s: Bytes): (n: nat)
    ensures n <= |s|
    ensures forall k | |s| - n <= k < |s| :: keep(s[k])
    ensures n < |s| ==> !keep(s[|s| - n - 1])
    decreases |s|
  {
    if s == [] || !keep(s[|s| - 1]) then 0
    else 1 + TrailingRunLen(keep, s[..|s| - 1])
  }

  /// The trailing run is the only suffix length bounded by a byte outside it
  lemma TrailingRunUnique(keep: byte -> bool, s: Bytes, n: nat)
    requires n <= |s|
    requires forall k | |s| - n <= k < |s| :: keep(s[k])
    requires n < |s| ==> !keep(s[|s| - n - 1])
    ensures TrailingRunLen(keep, s) == n
  {
  }

  /// `rtake_until_byte_1(pred)`: takes from the back the non-empty run of
  /// trailing bytes satisfying `pred`, failing when the last byte does not.
  function RTakeUntilByte1(pred: byte -> bool, input: Bytes): (r: PResult<Bytes>)
    ensures r.Ok? <==> |input| > 0 && pred(input[|input| - 1])
    ensures r.Ok? ==> r.rest + r.value == input && |r.value| > 0
    ensures r.Ok? ==> forall k | 0 <= k < |r.value| :: pred(r.value[k])
    ensures r.Ok? ==> r.rest == [] || !pred(r.rest[|r.rest| - 1])
  {
    var n := TrailingRunLen(pred, input);
    if n == 0 then Fail else Ok(input[..|input| - n], input[|input| - n..])
  }
}
