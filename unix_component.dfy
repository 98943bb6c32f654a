/// `UnixComponent`: one piece of a Unix path, as the parsers produce it
module UnixComponentModel {
  import opened ByteSeq

  datatype UnixComponent = RootDir | CurDir | ParentDir | Normal(name: Bytes)

  const CURRENT_DIR: Bytes := [DOT]
  const PARENT_DIR: Bytes := [DOT, DOT]

  /// The bytes a component stands for
  function AsBytes(c: UnixComponent): (b: Bytes)
    ensures c == RootDir <==> b == [SLASH] && !c.Normal?
    ensures c == CurDir ==> b == CURRENT_DIR
    ensures c == ParentDir ==> b == PARENT_DIR
    ensures c.Normal? ==> b == c.name
  {
    match c
    case RootDir => [SLASH]
    case CurDir => CURRENT_DIR
    case ParentDir => PARENT_DIR
    case Normal(name) => name
  }

  predicate IsRoot(c: UnixComponent) { c.RootDir? }
  predicate IsNormal(c: UnixComponent) { c.Normal? }
  predicate IsParent(c: UnixComponent) { c.ParentDir? }
  predicate IsCurrent(c: UnixComponent) { c.CurDir? }

  /// Exactly one of the four variant tests holds for every component
  lemma ExactlyOneKind(c: UnixComponent)
    ensures (if IsRoot(c) then 1 else 0) + (if IsNormal(c) then 1 else 0)
          + (if IsParent(c) then 1 else 0) + (if IsCurrent(c) then 1 else 0) == 1
  {
  }

  /// `len`: the length of the component's bytes
  function Len(c: UnixComponent): (n: nat)
    ensures n == |AsBytes(c)|
    ensures !c.Normal? ==> 1 <= n <= 2
  {
    match c
    case RootDir => 1
    case CurDir => 1
    case ParentDir => 2
    case Normal(name) => |name|
  }

  function Root(): (c: UnixComponent) ensures IsRoot(c) { RootDir }
  function Parent(): (c: UnixComponent) ensures IsParent(c) { ParentDir }
  function Current(): (c: UnixComponent) ensures IsCurrent(c) { CurDir }

  /// Position of a variant in the declaration order the derived `Ord` uses
  function Rank(c: UnixComponent): nat {
    match c
    case RootDir => 0
    case CurDir => 1
    case ParentDir => 2
    case Normal(_) => 3
  }

  /// The derived `Ord`: variants in declaration order, names lexicographically
  function Cmp(a: UnixComponent, b: UnixComponent): (o: Ordering)
    ensures o == Equal <==> a == b
    ensures Rank(a) < Rank(b) ==> o == Less
  {
    if Rank(a) < Rank(b) then Less
    else if Rank(a) > Rank(b) then Greater
    else if a.Normal? then LexCmp(a.name, b.name)
    else Equal
  }

  /// Swapping the operands reverses the order of components
  lemma CmpAntisymmetric(a: UnixComponent, b: UnixComponent)
    ensures Cmp(b, a) == Cmp(a, b).Reverse()
  {
    if a.Normal? && b.Normal? {
      LexCmpAntisymmetric(a.name, b.name);
    }
  }

  /// The derived `Ord` on component sequences (as `Iterator::cmp` compares them)
  function SeqCmp(a: seq<UnixComponent>, b: seq<UnixComponent>): (o: Ordering)
    ensures o == Equal <==> a == b
    decreases |a|
  {
    if a == [] && b == [] then Equal
    else if a == [] then Less
    else if b == [] then Greater
    else if Cmp(a[0], b[0]) != Equal then Cmp(a[0], b[0])
    else
      var o := SeqCmp(a[1..], b[1..]);
      assert o == Equal ==> a == [a[0]] + a[1..] && b == [b[0]] + b[1..];
      o
  }

  /// Swapping the operands reverses the order of component sequences
  lemma {:induction false} SeqCmpAntisymmetric(a: seq<UnixComponent>, b: seq<UnixComponent>)
    ensures SeqCmp(b, a) == SeqCmp(a, b).Reverse()
    decreases |a|
  {
    if a != [] && b != [] {
      CmpAntisymmetric(a[0], b[0]);
      if Cmp(a[0], b[0]) == Equal {
        SeqCmpAntisymmetric(a[1..], b[1..]);
      }
    }
  }
}
