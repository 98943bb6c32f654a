/// Byte strings, the shared vocabulary of every module: paths in this library
/// are raw byte slices whose meaning is fixed by an encoding (Unix or Windows),
/// never by the host platform.
module ByteSeq {

  newtype byte = x: int | 0 <= x < 256

  type Bytes = seq<byte>

  datatype Option<T> = None | Some(value: T)

  const NUL: byte := 0
  const DQUOTE: byte := 34        // '"'
  const STAR: byte := 42          // '*'
  const DOT: byte := 46           // '.'
  const SLASH: byte := 47         // '/'
  const COLON: byte := 58         // ':'
  const LT: byte := 60            // '<'
  const GT: byte := 62            // '>'
  const QUESTION: byte := 63      // '?'
  const BACKSLASH: byte := 92     // '\'
  const PIPE: byte := 124         // '|'

  /// `s` begins with `p`
  predicate StartsWith(s: Bytes, p: Bytes) {
    |p| <= |s| && s[..|p|] == p
  }

  /// `s` ends with `p`
  predicate EndsWith(s: Bytes, p: Bytes) {
    |p| <= |s| && s[|s| - |p|..] == p
  }

  /// `r` is what is left of `s` after a prefix of it has been consumed
  predicate IsSuffix(r: Bytes, s: Bytes) {
    |r| <= |s| && s[|s| - |r|..] == r
  }

  /// The prefix of `s` consumed to leave `rest` behind
  function Consumed(s: Bytes, rest: Bytes): (c: Bytes)
    requires IsSuffix(rest, s)
    ensures c + rest == s
  {
    s[..|s| - |rest|]
  }

  /// A sequence starts with its own front part
  lemma StartsWithConcat(a: Bytes, b: Bytes)
    ensures StartsWith(a + b, a)
  {
    assert (a + b)[..|a|] == a;
  }

  /// Dropping the front part of a concatenation leaves the back part
  lemma DropFront(a: Bytes, b: Bytes)
    ensures (a + b)[|a|..] == b
  {
  }

  /// Concatenation regrouped
  lemma ConcatAssoc<T>(a: seq<T>, b: seq<T>, c: seq<T>)
    ensures a + (b + c) == (a + b) + c
  {
  }

  /// Dropping `a` bytes and then `b` more drops `a + b`, and leaves a suffix
  lemma DropDrop(s: Bytes, a: nat, b: nat)
    requires a + b <= |s|
    ensures s[a..][b..] == s[a + b..]
    ensures IsSuffix(s[a + b..], s)
  {
  }

  lemma StartsWithTrans(a: Bytes, b: Bytes, c: Bytes)
    requires StartsWith(a, b) && StartsWith(b, c)
    ensures StartsWith(a, c)
  {
    assert a[..|c|] == a[..|b|][..|c|];
  }

  lemma SuffixTrans(a: Bytes, b: Bytes, c: Bytes)
    requires IsSuffix(a, b) && IsSuffix(b, c)
    ensures IsSuffix(a, c)
  {
    assert c[|c| - |a|..] == c[|c| - |b|..][|b| - |a|..];
  }

  /// A sequence in reverse order (what `rev()` yields)
  function Reversed<T>(xs: seq<T>): (r: seq<T>)
    ensures |r| == |xs|
    ensures forall i | 0 <= i < |xs| :: r[i] == xs[|xs| - 1 - i]
  {
    if xs == [] then [] else [xs[|xs| - 1]] + Reversed(xs[..|xs| - 1])
  }

  lemma ReversedSnoc<T>(xs: seq<T>, x: T)
    ensures Reversed(xs + [x]) == [x] + Reversed(xs)
  {
    var l := Reversed(xs + [x]);
    var r := [x] + Reversed(xs);
    assert forall i | 0 <= i < |l| :: l[i] == r[i];
  }

  /// Rust's `cmp::Ordering`
  datatype Ordering = Less | Equal | Greater {
    function Reverse(): Ordering {
      match this
      case Less => Greater
      case Equal => Equal
      case Greater => Less
    }
  }

  /// The lexicographic order of Rust's `[u8]`: the first differing byte
  /// decides, and a proper prefix comes first.
  function LexCmp(a: Bytes, b: Bytes): (o: Ordering)
    ensures o == Equal <==> a == b
    ensures a != [] && b != [] && a[0] != b[0] ==> (o == Less <==> a[0] < b[0])
    ensures a == [] && b != [] ==> o == Less
    decreases |a|
  {
    if a == [] && b == [] then Equal
    else if a == [] then Less
    else if b == [] then Greater
    else if a[0] < b[0] then Less
    else if a[0] > b[0] then Greater
    else
      var o := LexCmp(a[1..], b[1..]);
      assert o == Equal ==> a == [a[0]] + a[1..] && b == [b[0]] + b[1..];
      o
  }

  /// At the first byte where two slices differ, that byte decides the order
  lemma {:induction false} LexCmpFirstDifference(a: Bytes, b: Bytes, k: nat)
    requires k < |a| && k < |b| && a[..k] == b[..k] && a[k] != b[k]
    ensures LexCmp(a, b) != Equal
    ensures LexCmp(a, b) == Less <==> a[k] < b[k]
  {
    if k > 0 {
      assert a[0] == a[..k][0] == b[..k][0] == b[0];
      assert a[1..][..k - 1] == a[..k][1..] == b[..k][1..] == b[1..][..k - 1];
      LexCmpFirstDifference(a[1..], b[1..], k - 1);
    }
  }

  /// A proper prefix comes before the slice it starts
  lemma {:induction false} LexCmpProperPrefix(a: Bytes, b: Bytes)
    requires |a| < |b| && a == b[..|a|]
    ensures LexCmp(a, b) == Less
    decreases |a|
  {
    if a != [] {
      assert a[0] == b[0];
      assert a[1..] == b[1..][..|a| - 1];
      LexCmpProperPrefix(a[1..], b[1..]);
    }
  }

  /// Swapping the operands reverses the lexicographic order
  lemma {:induction false} LexCmpAntisymmetric(a: Bytes, b: Bytes)
    ensures LexCmp(b, a) == LexCmp(a, b).Reverse()
    decreases |a|
  {
    if a != [] && b != [] && a[0] == b[0] {
      LexCmpAntisymmetric(a[1..], b[1..]);
    }
  }

  /// Rust's `Vec<u8>`, the owned buffer behind a `PathBuf`: a mutable object
  /// whose operations are the ones the encodings call on it.
  class ByteVec {
    var data: Bytes

    constructor (init: Bytes)
      ensures data == init
    {
      data := init;
    }

    method Clear()
      modifies this
      ensures data == []
    {
      data := [];
    }

    method Push(b: byte)
      modifies this
      ensures data == old(data) + [b]
    {
      data := data + [b];
    }

    method ExtendFromSlice(s: Bytes)
      modifies this
      ensures data == old(data) + s
    {
      data := data + s;
    }

    /// Shortens the buffer to `n` bytes; a no-op when it is already shorter
    method Truncate(n: nat)
      modifies this
      ensures data == if n < |old(data)| then old(data)[..n] else old(data)
    {
      if n < |data| {
        data := data[..n];
      }
    }

    /// Removes the last byte, if any
    method Pop() returns (b: Option<byte>)
      modifies this
      ensures old(data) == [] ==> b == None && data == []
      ensures old(data) != [] ==> b == Some(old(data)[|old(data)| - 1]) && data == old(data)[..|old(data)| - 1]
    {
      if data == [] {
        b := None;
      } else {
        b := Some(data[|data| - 1]);
        data := data[..|data| - 1];
      }
    }
  }
}
