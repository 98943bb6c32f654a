/// `SingleComponentPath<T>`: a path that names exactly one file or
/// directory, `.` components aside
module SingleComponentModel {
  import opened ByteSeq
  import opened PathModel
  import opened PathQueries
  import UC = UnixComponentModel
  import UP = UnixPathParser
  import UPP = UnixPathParserProperties
  import UI = UnixIncremental
  import WC = WindowsComponentModel

  /// `is_current`: a `.` component
  predicate IsCurrentItem(c: Component) {
    match c
    case UnixItem(u) => UC.IsCurrent(u)
    case WindowsItem(w) => WC.IsCurrent(w)
  }

  /// The items other than `.`, in their order
  function WithoutCurrent(items: seq<Component>): (r: seq<Component>)
    ensures |r| <= |items|
    ensures forall k | 0 <= k < |r| :: !IsCurrentItem(r[k])
  {
    if items == [] then []
    else (if IsCurrentItem(items[0]) then [] else [items[0]]) + WithoutCurrent(items[1..])
  }

  /// `filter(|c| !c.is_current()).next()` on a forward iterator: the first
  /// item that is not `.`, and the iterator after it
  function NextNotCurrent(c: Cursor): (r: Option<Step>)
    ensures r.Some? ==> !IsCurrentItem(r.value.item) && |r.value.next.input| < |c.input|
    decreases |c.input|
  {
    match Next(Forward, c)
    case None => None
    case Some(Step(x, rest)) =>
      if IsCurrentItem(x) then NextNotCurrent(rest) else Some(Step(x, rest))
  }

  /// The filtered iterator yields the items other than `.`, one at a time
  lemma {:induction false} NextNotCurrentYields(c: Cursor)
    ensures NextNotCurrent(c).None? <==> WithoutCurrent(Items(Forward, c)) == []
    ensures NextNotCurrent(c).Some? ==>
              WithoutCurrent(Items(Forward, c))
              == [NextNotCurrent(c).value.item] + WithoutCurrent(Items(Forward, NextNotCurrent(c).value.next))
    decreases |c.input|
  {
    match Next(Forward, c)
    case None =>
    case Some(Step(x, rest)) =>
      var items := Items(Forward, rest);
      assert Items(Forward, c) == [x] + items;
      assert ([x] + items)[1..] == items;
      assert WithoutCurrent(Items(Forward, c)) == (if IsCurrentItem(x) then [] else [x]) + WithoutCurrent(items);
      NextNotCurrentYields(rest);
  }

  /// `is_valid`: the first item other than `.` is a name, and no other
  /// follows it
  predicate IsValid(enc: Encoding, path: Bytes) {
    match NextNotCurrent(Components(enc, path))
    case None => false
    case Some(Step(x, rest)) => IsNormalItem(x) && NextNotCurrent(rest).None?
  }

  /// A path is a single component exactly when, `.` aside, it has one
  /// component and that is a name
  lemma IsValidExactly(enc: Encoding, path: Bytes)
    ensures IsValid(enc, path) <==>
              var f := WithoutCurrent(Items(Forward, Components(enc, path)));
              |f| == 1 && IsNormalItem(f[0])
  {
    var c := Components(enc, path);
    NextNotCurrentYields(c);
    if NextNotCurrent(c).Some? {
      NextNotCurrentYields(NextNotCurrent(c).value.next);
    }
  }

  /// A path without components is not a single component
  lemma EmptyInvalid(enc: Encoding, path: Bytes)
    requires Items(Forward, Components(enc, path)) == []
    ensures !IsValid(enc, path)
  {
    IsValidExactly(enc, path);
  }

  /// On a NUL-free Unix path: exactly one component other than `.`, a name
  lemma UnixIsValidExactly(p: Bytes)
    requires UP.NulFree(p)
    ensures IsValid(Unix, p) <==>
              var f := WithoutCurrent(UnixItems(UP.SpecComponents(p)));
              |f| == 1 && IsNormalItem(f[0])
  {
    IsValidExactly(Unix, p);
    UnixFrontItems(p);
  }

  /// A Unix path of one segment denotes that segment's component
  lemma OneSegment(p: Bytes)
    requires p != [] && p[0] != SLASH && forall k | 0 <= k < |p| :: p[k] != SLASH
    ensures UP.SpecComponents(p) == UP.DropCurDirs([UP.Classify(p)], 0, false)
  {
    UPP.SegmentsAfterName(p, []);
    assert p + [] == p;
  }

  /// `./name` denotes `.` and then the name
  lemma DotSlashComponents(p: Bytes, name: Bytes)
    requires UI.NameBytes(name) && name != UC.PARENT_DIR && name != UC.CURRENT_DIR
    requires p == [DOT, SLASH] + name
    ensures UP.NulFree(p) && UP.SpecComponents(p) == [UC.CurDir, UC.Normal(name)]
  {
    DotSlashNulFree(p, name);
    DotSlashSegments(p, name);
    var segs := [[DOT], name];
    assert UP.ClassifyAll(segs) == [UC.CurDir, UC.Normal(name)] by {
      assert segs[1..] == [name] && segs[1..][1..] == [];
    }
    var cs := [UC.CurDir, UC.Normal(name)];
    assert UP.DropCurDirs(cs, 0, false) == cs by {
      assert cs[1..] == [UC.Normal(name)] && cs[1..][1..] == [];
    }
  }

  lemma DotSlashNulFree(p: Bytes, name: Bytes)
    requires UI.NameBytes(name)
    requires p == [DOT, SLASH] + name
    ensures UP.NulFree(p)
  {
    assert forall k | 2 <= k < |p| :: p[k] == name[k - 2];
  }

  /// `./name` splits into `.` and the name
  lemma DotSlashSegments(p: Bytes, name: Bytes)
    requires UI.NameBytes(name)
    requires p == [DOT, SLASH] + name
    ensures UP.Segments(p) == [[DOT], name]
  {
    var tail := [SLASH] + name;
    UPP.SegmentsAfterName([DOT], tail);
    assert p == [DOT] + tail;
    SlashThenName(tail, name);
  }

  /// A separator and then a name: one segment, the name
  lemma SlashThenName(tail: Bytes, name: Bytes)
    requires UI.NameBytes(name)
    requires tail == [SLASH] + name
    ensures UP.Segments(tail) == [name]
  {
    assert tail[1..] == name;
    assert forall k | 0 <= k < |name| :: name[k] != SLASH;
    UPP.SegmentsAfterName(name, []);
    assert name + [] == name;
  }

  /// `./name`: the leading `.` does not count, so it is a single component
  lemma DotSlashNameValid(p: Bytes, name: Bytes)
    requires UI.NameBytes(name) && name != UC.PARENT_DIR && name != UC.CURRENT_DIR
    requires p == [DOT, SLASH] + name
    ensures IsValid(Unix, p)
  {
    DotSlashComponents(p, name);
    var items := UnixItems([UC.CurDir, UC.Normal(name)]);
    assert items == [UnixItem(UC.CurDir), UnixItem(UC.Normal(name))];
    assert WithoutCurrent(items) == [UnixItem(UC.Normal(name))] by {
      assert items[1..] == [UnixItem(UC.Normal(name))] && items[1..][1..] == [];
    }
    UnixIsValidExactly(p);
  }

  /// `/` alone is the root, not a name
  lemma RootInvalid(p: Bytes)
    requires p == [SLASH]
    ensures !IsValid(Unix, p)
  {
    assert p[1..] == [];
    var items := UnixItems([UC.RootDir]);
    assert WithoutCurrent(items) == [UnixItem(UC.RootDir)] by {
      assert items[1..] == [];
    }
    UnixIsValidExactly(p);
  }

  /// `..` alone is the parent, not a name
  lemma ParentInvalid(p: Bytes)
    requires p == UC.PARENT_DIR
    ensures !IsValid(Unix, p)
  {
    OneSegment(p);
    var cs := [UC.ParentDir];
    assert UP.DropCurDirs(cs, 0, false) == cs by {
      assert cs[1..] == [];
    }
    var items := UnixItems(cs);
    assert WithoutCurrent(items) == [UnixItem(UC.ParentDir)] by {
      assert items[1..] == [];
    }
    UnixIsValidExactly(p);
  }
}
