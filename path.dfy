/// `Path<T>`: an unparsed byte slice whose meaning comes from the
/// components iterator of its encoding `T`. Every query reads a fresh
/// iterator from the front or from the back; `iter_after` walks two of
/// them side by side.
module PathModel {
  import opened ByteSeq
  import opened Combinators
  import UC = UnixComponentModel
  import UI = UnixIncremental
  import UP = UnixPathParser
  import UG = UnixGrammar
  import opened WindowsStepGrammar
  import UB = UnixBackProperties
  import WC = WindowsComponentModel
  import WI = WindowsIncremental
  import WCs = WindowsComponentsModel
  import UE = UnixEncodingModel
  import WE = WindowsEncodingModel

  /// The encoding parameter `T` of `Path<T>`
  datatype Encoding = Unix | Windows

  /// An item of a components iterator of either encoding
  datatype Component = UnixItem(u: UC.UnixComponent) | WindowsItem(w: WC.WindowsComponent)

  /// A components iterator: its parser's state and the bytes it has not
  /// read yet (a Windows iterator also fixes its separator mode)
  datatype Cursor =
    | UnixCursor(ustate: UI.State, input: Bytes)
    | WindowsCursor(wstate: WI.State, normalize: bool, input: Bytes)

  /// `components()`: a fresh iterator over the whole path
  function Components(enc: Encoding, path: Bytes): (c: Cursor)
    ensures c.input == path
    ensures c.UnixCursor? <==> enc == Unix
  {
    match enc
    case Unix => UnixCursor(UI.AtBeginning, path)
    case Windows => WindowsCursor(WI.AtBeginning, WCs.Normalizes(path), path)
  }

  /// The separators of an encoding: `/` for Unix, `\` and `/` for Windows
  predicate IsSeparator(enc: Encoding, b: byte) {
    match enc
    case Unix => b == SLASH
    case Windows => b == BACKSLASH || b == SLASH
  }

  function EncodingOf(c: Cursor): Encoding {
    if c.UnixCursor? then Unix else Windows
  }

  /// Which end an iterator is read from: under `rev()`, `next` is `next_back`
  datatype Direction = Forward | Backward

  /// One item read, and the iterator after it
  datatype Step = Step(item: Component, next: Cursor)

  /// `is_root`: the Unix root; the Windows root or a prefix other than a disk
  predicate IsRootItem(c: Component) {
    match c
    case UnixItem(u) => UC.IsRoot(u)
    case WindowsItem(w) => WC.IsRoot(w)
  }

  /// `is_normal`: a file or directory name
  predicate IsNormalItem(c: Component) {
    match c
    case UnixItem(u) => UC.IsNormal(u)
    case WindowsItem(w) => WC.IsNormal(w)
  }

  /// `as_bytes` of a component
  function ItemBytes(c: Component): Bytes {
    match c
    case UnixItem(u) => UC.AsBytes(u)
    case WindowsItem(w) => WC.AsBytes(w)
  }

  /// A name read at the beginning of a Unix path is where the path starts
  lemma UnixFrontNormal(input: Bytes)
    requires UI.ParseFront(UI.AtBeginning, input).Ok? && UI.ParseFront(UI.AtBeginning, input).value.Normal?
    ensures StartsWith(input, UI.ParseFront(UI.AtBeginning, input).value.name)
    ensures UI.NameBytes(UI.ParseFront(UI.AtBeginning, input).value.name)
  {
    AnyOfFour(UG.ParseRootDir, UG.ParseParentDir, UG.ParseCurDir, UG.ParseNormal, input);
    var r := UG.ParseNormal(input);
    assert r.value.name + r.rest == input;
    assert input[..|r.value.name|] == r.value.name;
  }

  /// A name read from the back of a Unix path sits right after what is
  /// left of the path
  lemma UnixBackNormal(state: UI.State, input: Bytes)
    ensures var r := UI.ParseBack(state, input);
            r.Ok? && r.value.Normal? ==> StartsWith(input, r.rest + r.value.name) && UI.NameBytes(r.value.name)
  {
    var stripped := input[..|input| - UI.TrailingSkip(input)];
    UnixBackCases(state, input, stripped, UI.ParseBack(state, input));
  }

  /// `UnixBackNormal` for the reading `r` of what is left once the
  /// trailing separators and `.` components are skipped
  lemma UnixBackCases(state: UI.State, input: Bytes, stripped: Bytes, r: PResult<UC.UnixComponent>)
    requires stripped == input[..|input| - UI.TrailingSkip(input)]
    requires r == UI.ParseLastSegment(state, input, stripped)
    ensures r.Ok? && r.value.Normal? ==> StartsWith(input, r.rest + r.value.name) && UI.NameBytes(r.value.name)
  {
    if r.Ok? && r.value.Normal? {
      if state == UI.AtBeginning && stripped == [] {
        UnixBackFromFront(input, r.rest, r.value.name);
      } else {
        UnixBackFromLast(input, stripped, r.rest, r.value.name);
      }
    }
  }

  lemma UnixBackFromFront(input: Bytes, rest: Bytes, name: Bytes)
    requires UI.ParseLastSegment(UI.AtBeginning, input, []) == Ok(rest, UC.Normal(name))
    ensures StartsWith(input, rest + name) && UI.NameBytes(name)
  {
    UnixFrontNormal(input);
    assert rest + name == name;
  }

  lemma UnixBackFromLast(input: Bytes, stripped: Bytes, rest: Bytes, name: Bytes)
    requires StartsWith(input, stripped)
    requires UI.LastSegment(stripped) == Ok(rest, UC.Normal(name))
    ensures StartsWith(input, rest + name) && UI.NameBytes(name)
  {
  }

  /// A name the Windows file-name grammar reads is where the input starts
  lemma FileNameNormal(normalize: bool, input: Bytes)
    requires FileNameIn(normalize, input).Ok? && FileNameIn(normalize, input).value.Normal?
    ensures StartsWith(input, FileNameIn(normalize, input).value.name)
  {
    var m := SegLenIn(normalize, input);
    assert FileNameIn(normalize, input).value.name == input[..m];
  }

  /// A name chosen by the Windows grammar is where the input starts
  lemma WindowsChoiceNormal(state: WI.State, normalize: bool, input: Bytes, name: Bytes)
    requires WI.Choice(state, normalize, input).Ok? && WI.Choice(state, normalize, input).value == WC.Normal(name)
    ensures StartsWith(input, name)
  {
    var c := WI.Choice(state, normalize, input);
    if state != WI.NotAtBeginning {
      assert c == WI.AfterPrefixChoice(normalize, input);
      assert !IsSepIn(normalize, input[0]) && CurDirIn(normalize, input).Fail?;
    }
    assert c == FileNameIn(normalize, input);
    FileNameNormal(normalize, input);
  }

  /// The last segment of a stripped Windows path, when it is a name,
  /// completes what is left before it
  lemma LastSegmentNormal(normalize: bool, stripped: Bytes, rest: Bytes, name: Bytes)
    requires WI.LastSegment(normalize, stripped) == Ok(rest, WC.Normal(name))
    ensures rest + name == stripped
  {
    var n := WI.LastSegLen(normalize, stripped);
    var seg := stripped[|stripped| - n..];
    ClassifiedName(normalize, seg, name);
    assert rest == stripped[..|stripped| - n];
  }

  /// A name read from the back of a Windows path sits right after what is
  /// left of the path
  lemma WindowsBackNormal(state: WI.State, normalize: bool, input: Bytes)
    ensures var r := WI.ParseBack(state, normalize, input);
            r.Ok? && r.value.Normal? ==> StartsWith(input, r.rest + r.value.name)
  {
    if state != WI.AtBeginning {
      WindowsBackLast(normalize, input, WI.Stripped(normalize, input));
    } else {
      match StepPrefixComponent(input)
      case Fail => WindowsBodyNormal(normalize, input);
      case Ok(body, pc) =>
        if body != [] {
          WindowsBodyNormal(normalize, body);
          var b := WI.BodyBack(normalize, body);
          if b.Ok? && b.value.Normal? {
            WI.KeepFront(pc.raw, body, b.rest + b.value.name);
            assert pc.raw + (b.rest + b.value.name) == (pc.raw + b.rest) + b.value.name;
          }
        }
    }
  }

  /// `WindowsBackNormal` for what follows the leading prefix
  lemma WindowsBodyNormal(normalize: bool, body: Bytes)
    ensures var r := WI.BodyBack(normalize, body);
            r.Ok? && r.value.Normal? ==> StartsWith(body, r.rest + r.value.name)
  {
    var stripped := WI.Stripped(normalize, body);
    var r := WI.BodyBack(normalize, body);
    if stripped == [] {
      if r.Ok? && r.value.Normal? {
        WindowsChoiceNormal(WI.SeenPrefix, normalize, body, r.value.name);
        assert r.rest + r.value.name == r.value.name;
      }
    } else {
      WindowsBackLast(normalize, body, stripped);
    }
  }

  /// The case of `WindowsBackNormal` where the last segment is read
  lemma WindowsBackLast(normalize: bool, input: Bytes, stripped: Bytes)
    requires StartsWith(input, stripped)
    ensures var r := WI.LastSegment(normalize, stripped);
            r.Ok? && r.value.Normal? ==> StartsWith(input, r.rest + r.value.name)
  {
    var r := WI.LastSegment(normalize, stripped);
    if r.Ok? && r.value.Normal? {
      LastSegmentNormal(normalize, stripped, r.rest, r.value.name);
    }
  }

  /// One step of a Unix iterator: reading from the front moves the parser
  /// past its beginning, reading from the back keeps its state
  function UnixNext(dir: Direction, s: UI.State, input: Bytes): (r: Option<Step>)
    ensures input == [] ==> r.None?
    ensures r.Some? ==> |r.value.next.input| < |input| && r.value.next.UnixCursor? && r.value.item.UnixItem?
    ensures r.Some? && dir == Forward ==> IsSuffix(r.value.next.input, input)
    ensures r.Some? && dir == Backward ==> StartsWith(input, r.value.next.input)
    ensures r.Some? && dir == Backward && r.value.next.input != [] ==>
              r.value.next.input[|r.value.next.input| - 1] == SLASH
    ensures r.Some? && dir == Backward && IsNormalItem(r.value.item) ==>
              StartsWith(input, r.value.next.input + ItemBytes(r.value.item))
  {
    if dir == Forward then
      match UI.ParseFront(s, input)
      case Fail => None
      case Ok(rest, u) => Some(Step(UnixItem(u), UnixCursor(UI.NotAtBeginning, rest)))
    else UnixNextBack(s, input)
  }

  /// The backward half of `UnixNext`
  function UnixNextBack(s: UI.State, input: Bytes): (r: Option<Step>)
    ensures input == [] ==> r.None?
    ensures r.Some? ==> |r.value.next.input| < |input| && r.value.next.UnixCursor? && r.value.item.UnixItem?
    ensures r.Some? ==> StartsWith(input, r.value.next.input)
    ensures r.Some? && r.value.next.input != [] ==> r.value.next.input[|r.value.next.input| - 1] == SLASH
    ensures r.Some? && IsNormalItem(r.value.item) ==> StartsWith(input, r.value.next.input + ItemBytes(r.value.item))
  {
    UnixBackNormal(s, input);
    match UI.ParseBack(s, input)
    case Fail => None
    case Ok(rest, u) => Some(Step(UnixItem(u), UnixCursor(s, rest)))
  }

  /// `rest` is the raw bytes of the prefix that `input` starts with
  predicate LeadingPrefixRaw(input: Bytes, rest: Bytes) {
    StepPrefixComponent(input).Ok? && rest == StepPrefixComponent(input).value.raw
  }

  /// One step of a Windows iterator: reading from the front moves the
  /// parser to the state the component calls for, reading from the back
  /// keeps its state; the separator mode never changes
  function WindowsNext(dir: Direction, s: WI.State, n: bool, input: Bytes): (r: Option<Step>)
    ensures input == [] ==> r.None?
    ensures r.Some? ==> |r.value.next.input| < |input| && r.value.next.WindowsCursor? && r.value.item.WindowsItem?
    ensures r.Some? ==> r.value.next.normalize == n
    ensures r.Some? && dir == Forward ==> IsSuffix(r.value.next.input, input)
    ensures r.Some? && dir == Backward ==> StartsWith(input, r.value.next.input)
    ensures r.Some? && dir == Backward && r.value.next.input != [] ==>
              IsSeparator(Windows, r.value.next.input[|r.value.next.input| - 1])
              || (s == WI.AtBeginning && LeadingPrefixRaw(input, r.value.next.input))
    ensures r.Some? && dir == Backward && IsNormalItem(r.value.item) ==>
              StartsWith(input, r.value.next.input + ItemBytes(r.value.item))
  {
    if dir == Forward then
      match WI.ParseFront(s, n, input)
      case Fail => None
      case Ok(rest, w) => Some(Step(WindowsItem(w), WindowsCursor(WI.NextState(w), n, rest)))
    else WindowsNextBack(s, n, input)
  }

  /// The backward half of `WindowsNext`
  function WindowsNextBack(s: WI.State, n: bool, input: Bytes): (r: Option<Step>)
    ensures input == [] ==> r.None?
    ensures r.Some? ==> |r.value.next.input| < |input| && r.value.next.WindowsCursor? && r.value.item.WindowsItem?
    ensures r.Some? ==> r.value.next.normalize == n
    ensures r.Some? ==> StartsWith(input, r.value.next.input)
    ensures r.Some? && r.value.next.input != [] ==>
              IsSeparator(Windows, r.value.next.input[|r.value.next.input| - 1])
              || (s == WI.AtBeginning && LeadingPrefixRaw(input, r.value.next.input))
    ensures r.Some? && IsNormalItem(r.value.item) ==> StartsWith(input, r.value.next.input + ItemBytes(r.value.item))
  {
    WI.ParseBackShape(s, n, input);
    WindowsBackNormal(s, n, input);
    match WI.ParseBack(s, n, input)
    case Fail => None
    case Ok(rest, w) => Some(Step(WindowsItem(w), WindowsCursor(s, n, rest)))
  }

  /// `next` (forward) or `next_back` (backward); a parse error ends the
  /// iteration
  function Next(dir: Direction, c: Cursor): (r: Option<Step>)
    ensures c.input == [] ==> r.None?
    ensures r.Some? ==> |r.value.next.input| < |c.input|
    ensures r.Some? && dir == Forward ==> IsSuffix(r.value.next.input, c.input)
    ensures r.Some? && dir == Backward ==> StartsWith(c.input, r.value.next.input)
    ensures r.Some? && dir == Backward && r.value.next.input != [] ==>
              IsSeparator(EncodingOf(c), r.value.next.input[|r.value.next.input| - 1])
              || (c.WindowsCursor? && c.wstate == WI.AtBeginning && LeadingPrefixRaw(c.input, r.value.next.input))
    ensures r.Some? ==> r.value.next.UnixCursor? == c.UnixCursor? && r.value.item.UnixItem? == c.UnixCursor?
    ensures r.Some? && c.WindowsCursor? ==> r.value.next.normalize == c.normalize
    ensures r.Some? && dir == Backward && IsNormalItem(r.value.item) ==>
              StartsWith(c.input, r.value.next.input + ItemBytes(r.value.item))
  {
    match c
    case UnixCursor(s, input) => UnixNext(dir, s, input)
    case WindowsCursor(s, n, input) => WindowsNext(dir, s, n, input)
  }

  /// Everything the iterator yields from one end until it stops
  function Items(dir: Direction, c: Cursor): seq<Component>
    decreases |c.input|
  {
    match Next(dir, c)
    case None => []
    case Some(Step(x, rest)) => [x] + Items(dir, rest)
  }

  /// The derived `PartialEq` of components: Windows prefixes compare by
  /// their parsed kind; components of different encodings never meet
  predicate ItemEq(a: Component, b: Component) {
    match (a, b)
    case (UnixItem(x), UnixItem(y)) => x == y
    case (WindowsItem(x), WindowsItem(y)) => WC.ComponentEq(x, y)
    case _ => false
  }

  /// `p` is an element-wise equal start of `s`
  predicate ItemPrefix(p: seq<Component>, s: seq<Component>) {
    |p| <= |s| && forall k | 0 <= k < |p| :: ItemEq(s[k], p[k])
  }

  /// `helpers::iter_after`: step both iterators while their items are
  /// equal; `iter` as it stands once `prefix` runs out, or `None` when an
  /// item differs or `iter` runs out first
  function IterAfter(dir: Direction, iter: Cursor, prefix: Cursor): (r: Option<Cursor>)
    ensures r.Some? && dir == Forward ==> IsSuffix(r.value.input, iter.input)
    ensures r.Some? && dir == Backward ==> StartsWith(iter.input, r.value.input)
    decreases |iter.input|
  {
    var a, b := Next(dir, iter), Next(dir, prefix);
    if b.None? then Some(iter)
    else if a.None? then None
    else if !ItemEq(a.value.item, b.value.item) then None
    else
      var r := IterAfter(dir, a.value.next, b.value.next);
      if r.Some? && dir == Forward then
        SuffixTrans(r.value.input, a.value.next.input, iter.input);
        r
      else if r.Some? then
        PrefixTrans(iter.input, a.value.next.input, r.value.input);
        r
      else r
  }

  lemma PrefixTrans(a: Bytes, b: Bytes, c: Bytes)
    requires StartsWith(a, b) && StartsWith(b, c)
    ensures StartsWith(a, c)
  {
    assert a[..|c|] == b[..|c|];
  }

  /// `iter_after` succeeds exactly when the items of `prefix` are an
  /// element-wise equal start of those of `iter`, and then the iterator it
  /// returns yields exactly the items of `iter` that are left
  lemma {:induction false} IterAfterSpec(dir: Direction, iter: Cursor, prefix: Cursor)
    ensures IterAfter(dir, iter, prefix).Some? <==> ItemPrefix(Items(dir, prefix), Items(dir, iter))
    ensures IterAfter(dir, iter, prefix).Some? ==>
              Items(dir, IterAfter(dir, iter, prefix).value) == Items(dir, iter)[|Items(dir, prefix)|..]
    decreases |iter.input|
  {
    var a, b := Next(dir, iter), Next(dir, prefix);
    if a.Some? && b.Some? {
      if ItemEq(a.value.item, b.value.item) {
        IterAfterSpec(dir, a.value.next, b.value.next);
      }
      PrefixCons(a.value.item, b.value.item, Items(dir, a.value.next), Items(dir, b.value.next));
    } else if b.None? {
      assert Items(dir, iter)[0..] == Items(dir, iter);
    }
  }

  /// Prefixes of sequences with a head: the heads must match, then the tails
  lemma PrefixCons(x: Component, y: Component, xs: seq<Component>, ys: seq<Component>)
    ensures ItemPrefix([y] + ys, [x] + xs) <==> ItemEq(x, y) && ItemPrefix(ys, xs)
    ensures ItemPrefix(ys, xs) ==> ([x] + xs)[|[y] + ys|..] == xs[|ys|..]
  {
    var l, r := [x] + xs, [y] + ys;
    assert forall k | 1 <= k < |r| :: r[k] == ys[k - 1];
    assert forall k | 1 <= k < |l| :: l[k] == xs[k - 1];
    if ItemEq(x, y) && ItemPrefix(ys, xs) {
      forall k | 0 <= k < |r|
        ensures ItemEq(l[k], r[k])
      {
        if k > 0 {
          assert ItemEq(xs[k - 1], ys[k - 1]);
        }
      }
    }
    if ItemPrefix(r, l) {
      forall k | 0 <= k < |ys|
        ensures ItemEq(xs[k], ys[k])
      {
        assert ItemEq(l[k + 1], r[k + 1]);
      }
      assert ItemEq(l[0], r[0]);
    }
  }
}
