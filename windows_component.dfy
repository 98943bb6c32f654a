/// The Windows component model: the six prefix kinds, the prefix component
/// (its raw bytes and what they parse to), and `WindowsComponent` with its
/// queries and the derived orders.
module WindowsComponentModel {
  import opened ByteSeq

  const SEPARATOR: byte := BACKSLASH
  const ALT_SEPARATOR: byte := SLASH
  const CURRENT_DIR: Bytes := [DOT]
  const PARENT_DIR: Bytes := [DOT, DOT]

  /// `DISALLOWED_FILENAME_BYTES`: `\ / : ? * " > < |` and NUL
  predicate IsDisallowed(b: byte) {
    b == BACKSLASH || b == SLASH || b == COLON || b == QUESTION || b == STAR
    || b == DQUOTE || b == GT || b == LT || b == PIPE || b == NUL
  }

  /// `(b as char).is_alphabetic()` for a byte: a byte read as a character
  /// is U+0000 to U+00FF, whose alphabetic members are the ASCII letters and
  /// the Latin-1 letters ª µ º À-Ö Ø-ö ø-ÿ
  predicate IsAlphabetic(b: byte) {
    (65 <= b <= 90) || (97 <= b <= 122) || b == 0xAA || b == 0xB5 || b == 0xBA
    || (0xC0 <= b <= 0xD6) || (0xD8 <= b <= 0xF6) || 0xF8 <= b
  }

  /// `WindowsPrefix`
  datatype WindowsPrefix =
    | Verbatim(name: Bytes)
    | VerbatimUNC(server: Bytes, share: Bytes)
    | VerbatimDisk(drive: byte)
    | DeviceNS(device: Bytes)
    | UNC(server: Bytes, share: Bytes)
    | Disk(drive: byte)

  /// `\\?\`
  const VERBATIM_START: Bytes := [BACKSLASH, BACKSLASH, QUESTION, BACKSLASH]
  /// `\\.\`
  const DEVICE_START: Bytes := [BACKSLASH, BACKSLASH, DOT, BACKSLASH]
  /// `UNC`
  const UNC_TAG: Bytes := [85, 78, 67]

  /// A UNC share written after the server: `\share`, or nothing
  function ShareText(share: Bytes): Bytes {
    if share != [] then [BACKSLASH] + share else []
  }

  /// The canonical text of a prefix, written with `\`
  function Render(p: WindowsPrefix): Bytes {
    match p
    case Verbatim(x) => VERBATIM_START + x
    case VerbatimUNC(x, y) => VERBATIM_START + UNC_TAG + [BACKSLASH] + x + ShareText(y)
    case VerbatimDisk(d) => VERBATIM_START + [d, COLON]
    case DeviceNS(x) => DEVICE_START + x
    case UNC(x, y) => [BACKSLASH, BACKSLASH] + x + ShareText(y)
    case Disk(d) => [d, COLON]
  }

  /// `WindowsPrefix::len`: the full byte length of the prefix
  function PrefixLen(p: WindowsPrefix): (n: nat)
    ensures n == |Render(p)|
    ensures n >= 2
  {
    match p
    case Verbatim(x) => 4 + |x|
    case VerbatimUNC(x, y) => 8 + |x| + if y != [] then 1 + |y| else 0
    case VerbatimDisk(_) => 6
    case UNC(x, y) => 2 + |x| + if y != [] then 1 + |y| else 0
    case DeviceNS(x) => 4 + |x|
    case Disk(_) => 2
  }

  /// `is_verbatim`: the prefix begins with `\\?\`
  predicate IsVerbatim(p: WindowsPrefix) {
    p.Verbatim? || p.VerbatimDisk? || p.VerbatimUNC?
  }

  /// A prefix field holds no disallowed byte
  predicate FieldOk(x: Bytes) {
    forall k | 0 <= k < |x| :: !IsDisallowed(x[k])
  }

  /// Exactly the verbatim kinds are written starting with `\\?\` (given a
  /// UNC server without disallowed bytes, which the parsers guarantee)
  lemma VerbatimIffRenderedVerbatim(p: WindowsPrefix)
    requires p.UNC? ==> FieldOk(p.server)
    ensures IsVerbatim(p) <==> StartsWith(Render(p), VERBATIM_START)
  {
    match p
    case Verbatim(x) =>
    case VerbatimUNC(x, y) =>
    case VerbatimDisk(d) =>
    case DeviceNS(x) =>
      assert Render(p)[2] == DOT;
    case UNC(x, y) =>
      if x == [] && y != [] {
        assert Render(p)[2] == BACKSLASH;
      } else if x != [] {
        assert Render(p)[2] == x[0];
      }
    case Disk(d) =>
  }

  /// Position of a prefix kind in declaration order
  function PrefixRank(p: WindowsPrefix): nat {
    match p
    case Verbatim(_) => 0
    case VerbatimUNC(_, _) => 1
    case VerbatimDisk(_) => 2
    case DeviceNS(_) => 3
    case UNC(_, _) => 4
    case Disk(_) => 5
  }

  function ByteCmp(a: byte, b: byte): (o: Ordering)
    ensures o == Equal <==> a == b
    ensures o == Less <==> a < b
  {
    if a < b then Less else if a > b then Greater else Equal
  }

  /// Lexicographic order on a pair of byte strings
  function PairCmp(a1: Bytes, a2: Bytes, b1: Bytes, b2: Bytes): (o: Ordering)
    ensures o == Equal <==> a1 == b1 && a2 == b2
  {
    if LexCmp(a1, b1) != Equal then LexCmp(a1, b1) else LexCmp(a2, b2)
  }

  /// The derived `Ord` of `WindowsPrefix`: kinds in declaration order, then
  /// the fields left to right
  function PrefixCmp(a: WindowsPrefix, b: WindowsPrefix): (o: Ordering)
    ensures o == Equal <==> a == b
    ensures PrefixRank(a) < PrefixRank(b) ==> o == Less
  {
    if PrefixRank(a) < PrefixRank(b) then Less
    else if PrefixRank(a) > PrefixRank(b) then Greater
    else
      match a
      case Verbatim(x) => LexCmp(x, b.name)
      case VerbatimUNC(x, y) => PairCmp(x, y, b.server, b.share)
      case VerbatimDisk(d) => ByteCmp(d, b.drive)
      case DeviceNS(x) => LexCmp(x, b.device)
      case UNC(x, y) => PairCmp(x, y, b.server, b.share)
      case Disk(d) => ByteCmp(d, b.drive)
  }

  /// Swapping the operands reverses the order of prefixes
  lemma PrefixCmpAntisymmetric(a: WindowsPrefix, b: WindowsPrefix)
    ensures PrefixCmp(b, a) == PrefixCmp(a, b).Reverse()
  {
    if PrefixRank(a) == PrefixRank(b) {
      match a
      case Verbatim(x) => LexCmpAntisymmetric(x, b.name);
      case VerbatimUNC(x, y) =>
        LexCmpAntisymmetric(x, b.server);
        LexCmpAntisymmetric(y, b.share);
      case VerbatimDisk(d) =>
      case DeviceNS(x) => LexCmpAntisymmetric(x, b.device);
      case UNC(x, y) =>
        LexCmpAntisymmetric(x, b.server);
        LexCmpAntisymmetric(y, b.share);
      case Disk(d) =>
    }
  }

  /// `WindowsPrefixComponent`: the raw bytes of the prefix and their parse
  datatype PrefixComponent = PrefixComponent(raw: Bytes, parsed: WindowsPrefix)

  /// `eq` of `WindowsPrefixComponent`: the parsed prefixes alone decide
  predicate PrefixComponentEq(a: PrefixComponent, b: PrefixComponent) {
    a.parsed == b.parsed
  }

  /// `cmp` of `WindowsPrefixComponent`: the order of the parsed prefixes
  function PrefixComponentCmp(a: PrefixComponent, b: PrefixComponent): (o: Ordering)
    ensures o == Equal <==> PrefixComponentEq(a, b)
  {
    PrefixCmp(a.parsed, b.parsed)
  }

  /// Neither equality nor order looks at the raw bytes: two spellings of
  /// one prefix (`\\server\share`, `//server/share`) compare equal
  lemma PrefixComponentIgnoresRaw(a: PrefixComponent, raw: Bytes, b: PrefixComponent)
    ensures PrefixComponentCmp(PrefixComponent(raw, a.parsed), b) == PrefixComponentCmp(a, b)
    ensures PrefixComponentEq(PrefixComponent(raw, a.parsed), b) <==> PrefixComponentEq(a, b)
  {
  }

  /// `WindowsComponent`
  datatype WindowsComponent =
    | Prefix(prefix: PrefixComponent)
    | RootDir
    | CurDir
    | ParentDir
    | Normal(name: Bytes)

  /// `as_bytes`: the prefix's raw bytes, `\`, `.`, `..`, or the name
  function AsBytes(c: WindowsComponent): (b: Bytes)
    ensures c.RootDir? ==> b == [SEPARATOR]
    ensures c.CurDir? ==> b == CURRENT_DIR
    ensures c.ParentDir? ==> b == PARENT_DIR
    ensures c.Normal? ==> b == c.name
    ensures c.Prefix? ==> b == c.prefix.raw
  {
    match c
    case Prefix(p) => p.raw
    case RootDir => [SEPARATOR]
    case CurDir => CURRENT_DIR
    case ParentDir => PARENT_DIR
    case Normal(name) => name
  }

  predicate IsPrefix(c: WindowsComponent) { c.Prefix? }
  predicate IsNormal(c: WindowsComponent) { c.Normal? }
  predicate IsParent(c: WindowsComponent) { c.ParentDir? }
  predicate IsCurrent(c: WindowsComponent) { c.CurDir? }

  /// `is_root`: the root separator, or a prefix other than a plain drive
  predicate IsRoot(c: WindowsComponent) {
    c.RootDir? || (c.Prefix? && !c.prefix.parsed.Disk?)
  }

  /// A component is a root exactly when it stands for a rooted location:
  /// the separator itself or a prefix that implies one; a verbatim drive
  /// counts, a plain drive does not
  lemma IsRootCases(c: WindowsComponent)
    ensures IsRoot(c) ==> c.RootDir? || c.Prefix?
    ensures c.Prefix? && c.prefix.parsed.VerbatimDisk? ==> IsRoot(c)
    ensures c.Prefix? && c.prefix.parsed.Disk? ==> !IsRoot(c)
    ensures IsRoot(c) ==> !IsNormal(c) && !IsParent(c) && !IsCurrent(c)
  {
  }

  /// At most one of `is_normal`, `is_parent`, `is_current` holds, and none
  /// of them for a prefix or the root
  lemma KindsExclusive(c: WindowsComponent)
    ensures !(IsNormal(c) && IsParent(c)) && !(IsNormal(c) && IsCurrent(c)) && !(IsParent(c) && IsCurrent(c))
    ensures c.Prefix? || c.RootDir? <==> !IsNormal(c) && !IsParent(c) && !IsCurrent(c)
  {
  }

  /// `bytes.iter().any(|b| DISALLOWED_FILENAME_BYTES.contains(b))`, scanned
  /// left to right
  function AnyDisallowed(s: Bytes): (r: bool)
    ensures r <==> exists k | 0 <= k < |s| :: IsDisallowed(s[k])
    decreases |s|
  {
    if s == [] then false
    else if IsDisallowed(s[0]) then true
    else
      var r := AnyDisallowed(s[1..]);
      assert forall k | 1 <= k < |s| :: s[k] == s[1..][k - 1];
      r
  }

  /// `is_valid`: only a normal name holding a disallowed byte is invalid
  function IsValid(c: WindowsComponent): (b: bool)
    ensures b <==> !(c.Normal? && exists k | 0 <= k < |c.name| :: IsDisallowed(c.name[k]))
  {
    match c
    case Normal(name) => !AnyDisallowed(name)
    case _ => true
  }

  /// `Normal("|")` is invalid, `Normal("abc")` valid
  lemma IsValidExamples(bar: Bytes, abc: Bytes)
    requires bar == [PIPE] && abc == [97, 98, 99]
    ensures !IsValid(Normal(bar)) && IsValid(Normal(abc))
    ensures IsValid(RootDir) && IsValid(CurDir) && IsValid(ParentDir)
  {
    assert IsDisallowed(bar[0]);
  }

  /// `prefix`: the prefix component, for the prefix variant only
  function PrefixOf(c: WindowsComponent): (r: Option<PrefixComponent>)
    ensures r.Some? <==> IsPrefix(c)
    ensures r.Some? ==> AsBytes(c) == r.value.raw
  {
    match c
    case Prefix(p) => Some(p)
    case _ => None
  }

  /// `prefix_kind`: the kind of the prefix, for the prefix variant only
  function PrefixKind(c: WindowsComponent): (r: Option<WindowsPrefix>)
    ensures r.Some? <==> IsPrefix(c)
  {
    match PrefixOf(c)
    case Some(p) => Some(p.parsed)
    case None => None
  }

  /// `len`: the length of `as_bytes`
  function Len(c: WindowsComponent): (n: nat)
    ensures !c.Prefix? && !c.Normal? ==> 1 <= n <= 2
  {
    |AsBytes(c)|
  }

  function Root(): (c: WindowsComponent) ensures IsRoot(c) && !IsPrefix(c) { RootDir }
  function Parent(): (c: WindowsComponent) ensures IsParent(c) { ParentDir }
  function Current(): (c: WindowsComponent) ensures IsCurrent(c) { CurDir }

  /// What the derived `PartialEq` compares: a prefix by its parsed kind
  function Canon(c: WindowsComponent): WindowsComponent {
    if c.Prefix? then Prefix(PrefixComponent([], c.prefix.parsed)) else c
  }

  /// The derived `PartialEq` of `WindowsComponent`
  predicate ComponentEq(a: WindowsComponent, b: WindowsComponent) {
    Canon(a) == Canon(b)
  }

  function Rank(c: WindowsComponent): nat {
    match c
    case Prefix(_) => 0
    case RootDir => 1
    case CurDir => 2
    case ParentDir => 3
    case Normal(_) => 4
  }

  /// The derived `Ord` of `WindowsComponent`: variants in declaration order,
  /// prefixes by kind, names lexicographically
  function Cmp(a: WindowsComponent, b: WindowsComponent): (o: Ordering)
    ensures o == Equal <==> ComponentEq(a, b)
    ensures Rank(a) < Rank(b) ==> o == Less
  {
    if Rank(a) < Rank(b) then Less
    else if Rank(a) > Rank(b) then Greater
    else if a.Prefix? then PrefixComponentCmp(a.prefix, b.prefix)
    else if a.Normal? then LexCmp(a.name, b.name)
    else Equal
  }

  lemma CmpAntisymmetric(a: WindowsComponent, b: WindowsComponent)
    ensures Cmp(b, a) == Cmp(a, b).Reverse()
  {
    if a.Prefix? && b.Prefix? {
      PrefixCmpAntisymmetric(a.prefix.parsed, b.prefix.parsed);
    } else if a.Normal? && b.Normal? {
      LexCmpAntisymmetric(a.name, b.name);
    }
  }

  /// Component sequences equal under the derived `PartialEq`
  predicate SeqEq(a: seq<WindowsComponent>, b: seq<WindowsComponent>) {
    |a| == |b| && forall i | 0 <= i < |a| :: ComponentEq(a[i], b[i])
  }

  /// The order on component sequences, as `Iterator::cmp` compares them
  function SeqCmp(a: seq<WindowsComponent>, b: seq<WindowsComponent>): (o: Ordering)
    ensures o == Equal <==> SeqEq(a, b)
    decreases |a|
  {
    if a == [] && b == [] then Equal
    else if a == [] then Less
    else if b == [] then Greater
    else if Cmp(a[0], b[0]) != Equal then Cmp(a[0], b[0])
    else
      var o := SeqCmp(a[1..], b[1..]);
      assert SeqEq(a, b) <==> ComponentEq(a[0], b[0]) && SeqEq(a[1..], b[1..]) by {
        if ComponentEq(a[0], b[0]) && SeqEq(a[1..], b[1..]) {
          assert forall i | 1 <= i < |a| :: a[i] == a[1..][i - 1] && b[i] == b[1..][i - 1];
        }
      }
      o
  }

  lemma {:induction false} SeqCmpAntisymmetric(a: seq<WindowsComponent>, b: seq<WindowsComponent>)
    ensures SeqCmp(b, a) == SeqCmp(a, b).Reverse()
    decreases |a|
  {
    if a != [] && b != [] {
      CmpAntisymmetric(a[0], b[0]);
      if Cmp(a[0], b[0]) == Equal {
        SeqCmpAntisymmetric(a[1..], b[1..]);
      }
    }
  }
}
