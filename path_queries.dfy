/// The queries of `Path<T>`: `parent`, `file_name`, `file_stem`,
/// `extension`, `starts_with`/`strip_prefix`/`ends_with`, equality,
/// ordering and hashing, each read off a fresh components iterator.
module PathQueries {
  import opened ByteSeq
  import opened PathModel
  import opened Combinators
  import UC = UnixComponentModel
  import UI = UnixIncremental
  import UP = UnixPathParser
  import UB = UnixBackProperties
  import UIP = UnixIncrementalProperties
  import WC = WindowsComponentModel
  import WI = WindowsIncremental
  import WIP = WindowsIncrementalProperties
  import WB = WindowsBackProperties
  import WG = WindowsGrammar
  import WSG = WindowsStepGrammar
  import WCs = WindowsComponentsModel
  import UE = UnixEncodingModel
  import WE = WindowsEncodingModel

  // ---------------------------------------------------------------------
  // Iterators of one encoding, as lists of that encoding's components
  // ---------------------------------------------------------------------

  function UnixItems(cs: seq<UC.UnixComponent>): (r: seq<Component>)
    ensures |r| == |cs| && forall k | 0 <= k < |cs| :: r[k] == UnixItem(cs[k])
  {
    seq(|cs|, k requires 0 <= k < |cs| => UnixItem(cs[k]))
  }

  function WindowsItems(cs: seq<WC.WindowsComponent>): (r: seq<Component>)
    ensures |r| == |cs| && forall k | 0 <= k < |cs| :: r[k] == WindowsItem(cs[k])
  {
    seq(|cs|, k requires 0 <= k < |cs| => WindowsItem(cs[k]))
  }

  lemma UnixItemsCons(u: UC.UnixComponent, cs: seq<UC.UnixComponent>)
    ensures UnixItems([u] + cs) == [UnixItem(u)] + UnixItems(cs)
  {
  }

  lemma WindowsItemsCons(w: WC.WindowsComponent, cs: seq<WC.WindowsComponent>)
    ensures WindowsItems([w] + cs) == [WindowsItem(w)] + WindowsItems(cs)
  {
  }

  /// A Unix iterator read from the front yields the front parser's list
  lemma {:induction false} UnixForwardItems(s: UI.State, input: Bytes)
    ensures Items(Forward, UnixCursor(s, input)) == UnixItems(UI.FrontList(s, input))
    decreases |input|
  {
    match UI.ParseFront(s, input)
    case Fail =>
      assert Next(Forward, UnixCursor(s, input)).None?;
    case Ok(rest, u) =>
      var next := UnixCursor(UI.NotAtBeginning, rest);
      assert Next(Forward, UnixCursor(s, input)) == Some(Step(UnixItem(u), next));
      assert Items(Forward, UnixCursor(s, input)) == [UnixItem(u)] + Items(Forward, next);
      UnixForwardItems(UI.NotAtBeginning, rest);
      UnixItemsCons(u, UI.FrontList(UI.NotAtBeginning, rest));
  }

  /// A Unix iterator read from the back yields the back parser's list
  lemma {:induction false} UnixBackwardItems(s: UI.State, input: Bytes)
    ensures Items(Backward, UnixCursor(s, input)) == UnixItems(UB.BackList(s, input))
    decreases |input|
  {
    match UI.ParseBack(s, input)
    case Fail =>
    case Ok(rest, u) =>
      UnixBackwardItems(s, rest);
      UnixItemsCons(u, UB.BackList(s, rest));
  }

  /// A Windows iterator read from the front yields the front parser's list
  lemma {:induction false} WindowsForwardItems(s: WI.State, n: bool, input: Bytes)
    ensures Items(Forward, WindowsCursor(s, n, input)) == WindowsItems(WI.FrontList(s, n, input))
    decreases |input|
  {
    match WI.ParseFront(s, n, input)
    case Fail =>
      assert Next(Forward, WindowsCursor(s, n, input)).None?;
    case Ok(rest, w) =>
      var next := WindowsCursor(WI.NextState(w), n, rest);
      assert Next(Forward, WindowsCursor(s, n, input)) == Some(Step(WindowsItem(w), next));
      assert Items(Forward, WindowsCursor(s, n, input)) == [WindowsItem(w)] + Items(Forward, next);
      WindowsForwardItems(WI.NextState(w), n, rest);
      WindowsItemsCons(w, WI.FrontList(WI.NextState(w), n, rest));
  }

  /// A Windows iterator read from the back yields the back parser's list
  lemma {:induction false} WindowsBackwardItems(s: WI.State, n: bool, input: Bytes)
    ensures Items(Backward, WindowsCursor(s, n, input)) == WindowsItems(WB.BackList(s, n, input))
    decreases |input|
  {
    WI.ParseBackShape(s, n, input);
    match WI.ParseBack(s, n, input)
    case Fail =>
      assert Next(Backward, WindowsCursor(s, n, input)).None?;
    case Ok(rest, w) =>
      var next := WindowsCursor(s, n, rest);
      assert Next(Backward, WindowsCursor(s, n, input)) == Some(Step(WindowsItem(w), next));
      assert Items(Backward, WindowsCursor(s, n, input)) == [WindowsItem(w)] + Items(Backward, next);
      WindowsBackwardItems(s, n, rest);
      WindowsItemsCons(w, WB.BackList(s, n, rest));
  }

  /// A Windows path (other than one that starts with a verbatim prefix with
  /// an empty name) read from the back yields its components in reverse
  lemma WindowsBackItems(p: Bytes)
    requires WB.NoBlankVerbatim(p)
    ensures Items(Backward, Components(Windows, p)) == WindowsItems(Reversed(WIP.SpecFront(WCs.Normalizes(p), p)))
  {
    WindowsBackwardItems(WI.AtBeginning, WCs.Normalizes(p), p);
    WB.BackAgrees(WCs.Normalizes(p), p);
  }

  // ---------------------------------------------------------------------
  // parent and file_name
  // ---------------------------------------------------------------------

  /// `parent`: what is left once the last component is read from the back,
  /// unless there is none or it is a root
  function Parent(enc: Encoding, path: Bytes): (r: Option<Bytes>)
    ensures path == [] ==> r.None?
    ensures r.Some? ==> |r.value| < |path| && StartsWith(path, r.value)
    ensures r.Some? && r.value != [] ==>
              IsSeparator(enc, r.value[|r.value| - 1]) || (enc == Windows && LeadingPrefixRaw(path, r.value))
  {
    match Next(Backward, Components(enc, path))
    case None => None
    case Some(Step(item, rest)) => if IsRootItem(item) then None else Some(rest.input)
  }

  /// `file_name`: the last component read from the back, when it is a name;
  /// the name is what follows the parent in the path
  function FileName(enc: Encoding, path: Bytes): (r: Option<Bytes>)
    ensures r.Some? ==> Parent(enc, path).Some? && StartsWith(path, Parent(enc, path).value + r.value)
  {
    match Next(Backward, Components(enc, path))
    case None => None
    case Some(Step(item, _)) => if IsNormalItem(item) then Some(ItemBytes(item)) else None
  }

  // ---------------------------------------------------------------------
  // file_stem and extension
  // ---------------------------------------------------------------------

  /// Where the last `.` of `s` is, if it has one
  function LastDot(s: Bytes): (r: Option<nat>)
    ensures r.Some? ==> r.value < |s| && s[r.value] == DOT && forall k | r.value < k < |s| :: s[k] != DOT
    ensures r.None? ==> forall k | 0 <= k < |s| :: s[k] != DOT
    decreases |s|
  {
    if s == [] then None
    else if s[|s| - 1] == DOT then Some(|s| - 1)
    else
      var r := LastDot(s[..|s| - 1]);
      assert forall k | 0 <= k < |s| - 1 :: s[..|s| - 1][k] == s[k];
      r
  }

  /// `helpers::rsplit_file_at_dot`: `(before, after)` split at the last
  /// `.`, except for `..` and for names whose only `.` leads them, which
  /// have no extension
  function RSplitFileAtDot(file: Bytes): (r: (Option<Bytes>, Option<Bytes>))
    ensures file == UC.PARENT_DIR ==> r == (Some(file), None)
    ensures r.1.None? ==> r.0 == Some(file)
    ensures r.0.None? ==> r.1 == Some(file) && forall k | 0 <= k < |file| :: file[k] != DOT
    ensures r.0.Some? && r.1.Some? ==> file == r.0.value + [DOT] + r.1.value && r.0.value != []
    ensures r.1.Some? ==> forall k | 0 <= k < |r.1.value| :: r.1.value[k] != DOT
    ensures r.0.Some? && r.1.Some? <==> file != UC.PARENT_DIR && exists i | 0 < i < |file| :: file[i] == DOT
  {
    if file == UC.PARENT_DIR then (Some(file), None)
    else
      match LastDot(file)
      case None => (None, Some(file))
      case Some(i) =>
        if i == 0 then (Some(file), None)
        else
          assert file == file[..i] + [DOT] + file[i + 1..];
          (Some(file[..i]), Some(file[i + 1..]))
  }

  /// `file_stem`: `before.or(after)` of the file name's split
  function FileStem(enc: Encoding, path: Bytes): (r: Option<Bytes>)
    ensures r.Some? <==> FileName(enc, path).Some?
    ensures r.Some? ==> StartsWith(FileName(enc, path).value, r.value)
  {
    match FileName(enc, path)
    case None => None
    case Some(name) =>
      var (before, after) := RSplitFileAtDot(name);
      if before.Some? then before else after
  }

  /// `extension`: `before.and(after)` of the file name's split; it exists
  /// exactly when the name, other than `..`, has a `.` after its first byte,
  /// and then stem, `.` and extension make up the name
  function Extension(enc: Encoding, path: Bytes): (r: Option<Bytes>)
    ensures r.Some? ==> FileName(enc, path).Some?
    ensures FileName(enc, path).Some? ==>
              (r.Some? <==> var name := FileName(enc, path).value;
                            name != UC.PARENT_DIR && exists i | 0 < i < |name| :: name[i] == DOT)
    ensures r.Some? ==> FileName(enc, path).value == FileStem(enc, path).value + [DOT] + r.value
    ensures r.Some? ==> forall k | 0 <= k < |r.value| :: r.value[k] != DOT
    ensures FileName(enc, path).Some? && r.None? ==> FileStem(enc, path) == FileName(enc, path)
  {
    match FileName(enc, path)
    case None => None
    case Some(name) =>
      var (before, after) := RSplitFileAtDot(name);
      if before.Some? then after else None
  }

  /// `foo.tar.gz` has stem `foo.tar` and extension `gz`
  lemma SplitTarGz()
    ensures RSplitFileAtDot([102, 111, 111, DOT, 116, 97, 114, DOT, 103, 122])
         == (Some([102, 111, 111, DOT, 116, 97, 114]), Some([103, 122]))
  {
    var file: Bytes := [102, 111, 111, DOT, 116, 97, 114, DOT, 103, 122];
    assert file[..9][..8] == file[..8];
    assert LastDot(file[..8]) == Some(7);
    assert LastDot(file) == Some(7);
    assert file != UC.PARENT_DIR;
    assert file[..7] == [102, 111, 111, DOT, 116, 97, 114] && file[8..] == [103, 122];
  }

  /// On a NUL-free Unix path, `parent` drops the last of the path's
  /// components, and is `None` exactly when there is none or it is the root
  lemma UnixParentDropsLast(p: Bytes)
    requires UP.NulFree(p)
    ensures var cs := UP.SpecComponents(p);
            Parent(Unix, p).None? <==> cs == [] || cs[|cs| - 1] == UC.RootDir
    ensures var cs := UP.SpecComponents(p);
            Parent(Unix, p).Some? ==> cs == UP.SpecComponents(Parent(Unix, p).value) + [cs[|cs| - 1]]
  {
    if p != [] {
      UB.BackAtBeginning(p);
      var r := UI.ParseBack(UI.AtBeginning, p);
      assert Next(Backward, Components(Unix, p)) == Some(Step(UnixItem(r.value), UnixCursor(UI.AtBeginning, r.rest)));
    }
  }

  /// On a NUL-free Unix path, `file_name` is the last component exactly
  /// when that is a name
  lemma UnixFileNameIsLast(p: Bytes)
    requires UP.NulFree(p)
    ensures var cs := UP.SpecComponents(p);
            FileName(Unix, p).Some? <==> cs != [] && cs[|cs| - 1].Normal?
    ensures var cs := UP.SpecComponents(p);
            FileName(Unix, p).Some? ==> cs[|cs| - 1] == UC.Normal(FileName(Unix, p).value)
  {
    if p != [] {
      UB.BackAtBeginning(p);
      var r := UI.ParseBack(UI.AtBeginning, p);
      assert Next(Backward, Components(Unix, p)) == Some(Step(UnixItem(r.value), UnixCursor(UI.AtBeginning, r.rest)));
    }
  }

  /// The first step back on a non-empty Windows path (other than one that
  /// starts with a verbatim prefix with an empty name) reads the last of its
  /// components and leaves the path of the others
  lemma WindowsBackStep(p: Bytes) returns (r: PResult<WC.WindowsComponent>)
    requires p != [] && WB.NoBlankVerbatim(p)
    ensures r.Ok?
    ensures Next(Backward, Components(Windows, p))
         == Some(Step(WindowsItem(r.value), WindowsCursor(WI.AtBeginning, WCs.Normalizes(p), r.rest)))
    ensures WIP.SpecFront(WCs.Normalizes(p), p) == WIP.SpecFront(WCs.Normalizes(p), r.rest) + [r.value]
  {
    var n := WCs.Normalizes(p);
    WB.BackAtBeginning(n, p);
    r := WI.ParseBack(WI.AtBeginning, n, p);
  }

  /// On a Windows path (other than one that starts with a verbatim prefix
  /// with an empty name), `parent` drops the last of the path's components,
  /// read in the path's separator mode, and is `None` exactly when there is
  /// none or it is a root: the root separator or a prefix other than a drive
  lemma WindowsParentDropsLast(p: Bytes)
    requires WB.NoBlankVerbatim(p)
    ensures var cs := WIP.SpecFront(WCs.Normalizes(p), p);
            Parent(Windows, p).None? <==> cs == [] || WC.IsRoot(cs[|cs| - 1])
    ensures var cs := WIP.SpecFront(WCs.Normalizes(p), p);
            Parent(Windows, p).Some? ==> cs == WIP.SpecFront(WCs.Normalizes(p), Parent(Windows, p).value) + [cs[|cs| - 1]]
  {
    if p == [] {
      WB.EmptyHasNoComponents(WCs.Normalizes(p));
    } else {
      var r := WindowsBackStep(p);
    }
  }

  /// On a Windows path (other than one that starts with a verbatim prefix
  /// with an empty name), `file_name` is the last component exactly when
  /// that is a name
  lemma WindowsFileNameIsLast(p: Bytes)
    requires WB.NoBlankVerbatim(p)
    ensures var cs := WIP.SpecFront(WCs.Normalizes(p), p);
            FileName(Windows, p).Some? <==> cs != [] && cs[|cs| - 1].Normal?
    ensures var cs := WIP.SpecFront(WCs.Normalizes(p), p);
            FileName(Windows, p).Some? ==> cs[|cs| - 1] == WC.Normal(FileName(Windows, p).value)
  {
    if p == [] {
      WB.EmptyHasNoComponents(WCs.Normalizes(p));
    } else {
      var r := WindowsBackStep(p);
    }
  }

  /// `C:\` has neither a parent nor a file name: read from the back, its
  /// last component is the root after the drive
  lemma DiskRootHasNoParent()
    ensures Parent(Windows, [67, 58, 92]).None? && FileName(Windows, [67, 58, 92]).None?
  {
    DiskRootReads();
    assert WI.BodyBack(true, [92]) == Ok([], WC.RootDir);
  }

  /// `C:\` starts with the drive `C`, leaving the separator
  lemma DiskRootReads()
    ensures WSG.StepPrefix([67, 58, 92]) == Ok([92], WC.Disk(67))
  {
    var p: Bytes := [67, 58, 92];
    WSG.StepPrefixNotUNC(p);
    assert WG.PrefixDisk(p) == Ok([92], WC.Disk(67));
  }

  /// `\\s\h` has neither a parent nor a file name: it is one UNC prefix,
  /// which is a root
  lemma UNCShareHasNoParent()
    ensures Parent(Windows, [92, 92, 115, 92, 104]).None? && FileName(Windows, [92, 92, 115, 92, 104]).None?
  {
    UNCShareReads();
  }

  /// `\\s\h` is read whole as the UNC prefix of server `s` and share `h`
  lemma UNCShareReads()
    ensures WSG.StepPrefix([92, 92, 115, 92, 104]) == Ok([], WC.UNC([115], [104]))
  {
    var p: Bytes := [92, 92, 115, 92, 104];
    WB.PrefixForms(p);
    assert WSG.StepVerbatimUNC(p).Fail? && WG.PrefixVerbatimDisk(p).Fail?;
    assert WSG.StepVerbatim(p).Fail? && WSG.StepDeviceNS(p).Fail?;
    ServerThenShare();
  }

  /// After `\\`, `s\h` is server `s` and share `h` with nothing left
  lemma ServerThenShare()
    ensures WSG.ServerShareIn(true, [115, 92, 104]) == Ok([], ([115], [104]))
  {
    var t: Bytes := [115, 92, 104];
    assert WSG.SegLenIn(true, t) == 1;
    assert t[..1] == [115] && t[1..] == [92, 104];
    var u: Bytes := [92, 104];
    assert WSG.SegLenIn(true, u[1..]) == 1;
    assert u[1..][..1] == [104] && u[1..][1..] == [];
  }

  // ---------------------------------------------------------------------
  // starts_with, strip_prefix and ends_with
  // ---------------------------------------------------------------------

  /// `strip_prefix`: the bytes the iterator has left once `base`'s
  /// components are matched, or `None` (the `StripPrefixError`)
  function StripPrefix(enc: Encoding, path: Bytes, base: Bytes): (r: Option<Bytes>)
    ensures r.Some? ==> IsSuffix(r.value, path)
    ensures r.Some? <==> ItemPrefix(Items(Forward, Components(enc, base)), Items(Forward, Components(enc, path)))
  {
    IterAfterSpec(Forward, Components(enc, path), Components(enc, base));
    match IterAfter(Forward, Components(enc, path), Components(enc, base))
    case None => None
    case Some(c) => Some(c.input)
  }

  /// `starts_with`: `base`'s components start `path`'s
  function PathStartsWith(enc: Encoding, path: Bytes, base: Bytes): (b: bool)
    ensures b <==> StripPrefix(enc, path, base).Some?
    ensures b <==> ItemPrefix(Items(Forward, Components(enc, base)), Items(Forward, Components(enc, path)))
  {
    IterAfterSpec(Forward, Components(enc, path), Components(enc, base));
    IterAfter(Forward, Components(enc, path), Components(enc, base)).Some?
  }

  /// `ends_with`: `child`'s components, read from the back, start `path`'s
  /// read from the back
  function PathEndsWith(enc: Encoding, path: Bytes, child: Bytes): (b: bool)
    ensures b <==> ItemPrefix(Items(Backward, Components(enc, child)), Items(Backward, Components(enc, path)))
  {
    IterAfterSpec(Backward, Components(enc, path), Components(enc, child));
    IterAfter(Backward, Components(enc, path), Components(enc, child)).Some?
  }

  /// A NUL-free Unix path read from the front yields its components
  lemma UnixFrontItems(p: Bytes)
    requires UP.NulFree(p)
    ensures Items(Forward, Components(Unix, p)) == UnixItems(UP.SpecComponents(p))
  {
    UnixForwardItems(UI.AtBeginning, p);
    if p != [] {
      UIP.FrontAgrees(p);
    }
  }

  /// A NUL-free Unix path read from the back yields its components in
  /// reverse
  lemma UnixBackItems(p: Bytes)
    requires UP.NulFree(p)
    ensures Items(Backward, Components(Unix, p)) == UnixItems(Reversed(UP.SpecComponents(p)))
  {
    UnixBackwardItems(UI.AtBeginning, p);
    if p != [] {
      UB.BackMirrorsFront(p);
      UIP.FrontAgrees(p);
    }
  }

  /// Equal Unix items are equal components
  lemma UnixItemPrefix(x: seq<UC.UnixComponent>, y: seq<UC.UnixComponent>)
    ensures ItemPrefix(UnixItems(x), UnixItems(y)) <==> |x| <= |y| && y[..|x|] == x
  {
    if |x| <= |y| && y[..|x|] == x {
      assert forall k | 0 <= k < |x| :: y[k] == x[k];
    }
    if ItemPrefix(UnixItems(x), UnixItems(y)) {
      assert forall k | 0 <= k < |x| :: ItemEq(UnixItem(y[k]), UnixItem(x[k]));
    }
  }

  /// A reversed list starts another reversed list exactly when the first
  /// list ends the second
  lemma ReversedPrefix<T>(x: seq<T>, y: seq<T>)
    requires |x| <= |y|
    ensures Reversed(y)[..|x|] == Reversed(x) <==> y[|y| - |x|..] == x
  {
    var rx, ry, tail := Reversed(x), Reversed(y), y[|y| - |x|..];
    if tail == x {
      forall k | 0 <= k < |x|
        ensures ry[k] == rx[k]
      {
        assert tail[|x| - 1 - k] == y[|y| - 1 - k];
      }
      assert ry[..|x|] == rx;
    }
    if ry[..|x|] == rx {
      forall k | 0 <= k < |x|
        ensures tail[k] == x[k]
      {
        assert ry[|x| - 1 - k] == rx[|x| - 1 - k];
      }
      assert tail == x;
    }
  }

  /// On NUL-free Unix paths, `starts_with` holds exactly when `base`'s
  /// components begin `path`'s
  lemma UnixStartsWithComponents(path: Bytes, base: Bytes)
    requires UP.NulFree(path) && UP.NulFree(base)
    ensures var cs, bs := UP.SpecComponents(path), UP.SpecComponents(base);
            PathStartsWith(Unix, path, base) <==> |bs| <= |cs| && cs[..|bs|] == bs
  {
    UnixFrontItems(path);
    UnixFrontItems(base);
    UnixItemPrefix(UP.SpecComponents(base), UP.SpecComponents(path));
  }

  /// On NUL-free Unix paths, `ends_with` holds exactly when `child`'s
  /// components end `path`'s
  lemma UnixEndsWithComponents(path: Bytes, child: Bytes, cs: seq<UC.UnixComponent>, ds: seq<UC.UnixComponent>)
    requires UP.NulFree(path) && UP.NulFree(child)
    requires cs == UP.SpecComponents(path) && ds == UP.SpecComponents(child)
    ensures PathEndsWith(Unix, path, child) <==> |ds| <= |cs| && cs[|cs| - |ds|..] == ds
  {
    UnixEndsWithReversed(path, child, cs, ds);
    ReversedItemsEnd(cs, ds);
  }

  /// `ends_with` on Unix paths compares their components read backwards
  lemma UnixEndsWithReversed(path: Bytes, child: Bytes, cs: seq<UC.UnixComponent>, ds: seq<UC.UnixComponent>)
    requires UP.NulFree(path) && UP.NulFree(child)
    requires cs == UP.SpecComponents(path) && ds == UP.SpecComponents(child)
    ensures PathEndsWith(Unix, path, child) <==> ItemPrefix(UnixItems(Reversed(ds)), UnixItems(Reversed(cs)))
  {
    UnixBackItems(path);
    UnixBackItems(child);
  }

  /// One list read backwards starts another read backwards exactly when
  /// it ends the other
  lemma ReversedItemsEnd(cs: seq<UC.UnixComponent>, ds: seq<UC.UnixComponent>)
    ensures ItemPrefix(UnixItems(Reversed(ds)), UnixItems(Reversed(cs))) <==> |ds| <= |cs| && cs[|cs| - |ds|..] == ds
  {
    UnixItemPrefix(Reversed(ds), Reversed(cs));
    if |ds| <= |cs| {
      ReversedPrefix(ds, cs);
    }
  }

  // ---------------------------------------------------------------------
  // Equality, ordering and hashing
  // ---------------------------------------------------------------------

  /// The components a fresh iterator reads from the front of a Unix path
  function UnixList(p: Bytes): seq<UC.UnixComponent> {
    UI.FrontList(UI.AtBeginning, p)
  }

  /// The components a fresh iterator reads from the front of a Windows path
  function WindowsList(p: Bytes): seq<WC.WindowsComponent> {
    WI.FrontList(WI.AtBeginning, WCs.Normalizes(p), p)
  }

  /// `PartialEq` of paths: their components are equal one by one
  predicate Eq(enc: Encoding, a: Bytes, b: Bytes) {
    match enc
    case Unix => UnixList(a) == UnixList(b)
    case Windows => WC.SeqEq(WindowsList(a), WindowsList(b))
  }

  /// `Ord` of paths: their components compared lexicographically
  function Cmp(enc: Encoding, a: Bytes, b: Bytes): (o: Ordering)
    ensures o == Equal <==> Eq(enc, a, b)
  {
    match enc
    case Unix => UC.SeqCmp(UnixList(a), UnixList(b))
    case Windows => WC.SeqCmp(WindowsList(a), WindowsList(b))
  }

  /// Swapping the paths reverses their order
  lemma CmpAntisymmetric(enc: Encoding, a: Bytes, b: Bytes)
    ensures Cmp(enc, b, a) == Cmp(enc, a, b).Reverse()
  {
    match enc
    case Unix => UC.SeqCmpAntisymmetric(UnixList(a), UnixList(b));
    case Windows => WC.SeqCmpAntisymmetric(WindowsList(a), WindowsList(b));
  }

  /// Windows items start another list exactly when their components are
  /// equal one by one
  lemma WindowsItemPrefix(x: seq<WC.WindowsComponent>, y: seq<WC.WindowsComponent>)
    ensures ItemPrefix(WindowsItems(x), WindowsItems(y)) <==>
            |x| <= |y| && forall k | 0 <= k < |x| :: WC.ComponentEq(y[k], x[k])
  {
    if ItemPrefix(WindowsItems(x), WindowsItems(y)) {
      assert forall k | 0 <= k < |x| :: ItemEq(WindowsItem(y[k]), WindowsItem(x[k]));
    }
  }

  /// Two paths are equal exactly when each starts with the other
  lemma EqIsMutualStartsWith(enc: Encoding, a: Bytes, b: Bytes)
    ensures Eq(enc, a, b) <==> PathStartsWith(enc, a, b) && PathStartsWith(enc, b, a)
  {
    if enc == Unix {
      UnixEqIsMutual(a, b);
    } else {
      WindowsEqIsMutual(a, b);
    }
  }

  lemma UnixEqIsMutual(a: Bytes, b: Bytes)
    ensures Eq(Unix, a, b) <==> PathStartsWith(Unix, a, b) && PathStartsWith(Unix, b, a)
  {
    UnixForwardItems(UI.AtBeginning, a);
    UnixForwardItems(UI.AtBeginning, b);
    UnixItemPrefix(UnixList(a), UnixList(b));
    UnixItemPrefix(UnixList(b), UnixList(a));
  }

  lemma WindowsEqIsMutual(a: Bytes, b: Bytes)
    ensures Eq(Windows, a, b) <==> PathStartsWith(Windows, a, b) && PathStartsWith(Windows, b, a)
  {
    WindowsForwardItems(WI.AtBeginning, WCs.Normalizes(a), a);
    WindowsForwardItems(WI.AtBeginning, WCs.Normalizes(b), b);
    WindowsMutualPrefix(WindowsList(a), WindowsList(b));
  }

  /// Windows lists start each other exactly when they are equal one by one
  lemma WindowsMutualPrefix(x: seq<WC.WindowsComponent>, y: seq<WC.WindowsComponent>)
    ensures WC.SeqEq(x, y) <==> ItemPrefix(WindowsItems(y), WindowsItems(x)) && ItemPrefix(WindowsItems(x), WindowsItems(y))
  {
    WindowsItemPrefix(x, y);
    WindowsItemPrefix(y, x);
  }

  /// NUL-free Unix paths are equal exactly when their components are
  lemma UnixEqComponents(a: Bytes, b: Bytes)
    requires UP.NulFree(a) && UP.NulFree(b)
    ensures Eq(Unix, a, b) <==> UP.SpecComponents(a) == UP.SpecComponents(b)
  {
    if a != [] {
      UIP.FrontAgrees(a);
    }
    if b != [] {
      UIP.FrontAgrees(b);
    }
  }

  /// `Hash` of NUL-free Unix paths agrees with their equality
  lemma UnixHashRespectsEq(a: Bytes, b: Bytes)
    requires UP.NulFree(a) && UP.NulFree(b) && Eq(Unix, a, b)
    ensures UE.HashWrites(a) == UE.HashWrites(b)
  {
    UnixEqComponents(a, b);
    UE.HashRespectsComponents(a, b);
  }

  /// `Hash` of Windows paths agrees with their equality, whenever the hash
  /// decides to normalise as the components iterator does
  lemma WindowsHashRespectsEq(a: Bytes, b: Bytes)
    requires WE.HashNormalizes(a) == WCs.Normalizes(a) && WE.HashNormalizes(b) == WCs.Normalizes(b)
    requires Eq(Windows, a, b)
    ensures WE.HashWrites(a) == WE.HashWrites(b)
  {
    WIP.FrontAgrees(WCs.Normalizes(a), a);
    WIP.FrontAgrees(WCs.Normalizes(b), b);
    WE.HashRespectsComponents(a, b);
  }

  // ---------------------------------------------------------------------
  // Unix file names in place
  // ---------------------------------------------------------------------

  /// A Unix file name is a non-empty run of bytes other than `/` and NUL
  lemma UnixFileNameBytes(p: Bytes)
    ensures FileName(Unix, p).Some? ==> UI.NameBytes(FileName(Unix, p).value)
  {
    UnixBackNormal(UI.AtBeginning, p);
  }

  /// A name after a directory, with at most one separator after it, is the
  /// path's file name, and the directory its parent
  lemma UnixFileNameOf(dir: Bytes, name: Bytes, tail: Bytes)
    requires dir == [] || dir[|dir| - 1] == SLASH
    requires UI.NameBytes(name) && name != UC.PARENT_DIR && name != UC.CURRENT_DIR
    requires tail == [] || tail == [SLASH]
    ensures FileName(Unix, dir + name + tail) == Some(name)
    ensures Parent(Unix, dir + name + tail) == Some(dir)
  {
    UnixBackOfName(dir, name, tail);
    UnixFileNameFromBack(dir + name + tail, dir, name);
  }

  /// Read from the back, such a path yields the name and leaves the directory
  lemma UnixBackOfName(dir: Bytes, name: Bytes, tail: Bytes)
    requires dir == [] || dir[|dir| - 1] == SLASH
    requires UI.NameBytes(name) && name != UC.PARENT_DIR && name != UC.CURRENT_DIR
    requires tail == [] || tail == [SLASH]
    ensures UI.ParseBack(UI.AtBeginning, dir + name + tail) == Ok(dir, UC.Normal(name))
  {
    var s := dir + name + tail;
    UnixStrippedOfName(dir, name, tail);
    UIP.LastSegmentIsName(dir, name);
    assert UI.ParseLastSegment(UI.AtBeginning, s, dir + name) == Ok(dir, UC.Normal(name));
  }

  lemma UnixStrippedOfName(dir: Bytes, name: Bytes, tail: Bytes)
    requires dir == [] || dir[|dir| - 1] == SLASH
    requires UI.NameBytes(name) && name != UC.CURRENT_DIR
    requires tail == [] || tail == [SLASH]
    ensures var s := dir + name + tail; s[..|s| - UI.TrailingSkip(s)] == dir + name
  {
    var s := dir + name + tail;
    NameNotSkipped(dir, name);
    if tail == [SLASH] {
      assert s[..|s| - 1] == dir + name;
    } else {
      assert s == dir + name;
    }
    assert UI.TrailingSkip(s) == |tail|;
    assert s[..|s| - |tail|] == dir + name;
  }

  /// What the back parser reads first is what `file_name` and `parent` see
  lemma UnixFileNameFromBack(s: Bytes, dir: Bytes, name: Bytes)
    requires UI.ParseBack(UI.AtBeginning, s) == Ok(dir, UC.Normal(name))
    ensures FileName(Unix, s) == Some(name)
    ensures Parent(Unix, s) == Some(dir)
  {
  }

  /// Nothing at the end of a name other than `.` and `..` is skipped
  lemma NameNotSkipped(dir: Bytes, name: Bytes)
    requires dir == [] || dir[|dir| - 1] == SLASH
    requires UI.NameBytes(name) && name != UC.CURRENT_DIR
    ensures UI.TrailingSkip(dir + name) == 0
  {
    var s := dir + name;
    assert s[|s| - 1] == name[|name| - 1];
    if |name| > 1 {
      assert s[|s| - 2] == name[|name| - 2];
    } else {
      assert name == [name[0]];
    }
  }
}
