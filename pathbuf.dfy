/// `PathBuf<T>`: an owned path whose byte buffer `push`, `pop`,
/// `set_file_name` and `set_extension` change in place; `extend` and
/// `collect` push path after path.
module PathBufModel {
  import opened ByteSeq
  import opened PathModel
  import opened PathQueries
  import UC = UnixComponentModel
  import UI = UnixIncremental
  import UE = UnixEncodingModel
  import WE = WindowsEncodingModel

  /// `T::push` of the buffer's encoding
  function Pushed(enc: Encoding, current: Bytes, path: Bytes): Bytes {
    match enc
    case Unix => UE.Pushed(current, path)
    case Windows => WE.Pushed(current, path)
  }

  /// `current` with `step` applied to each of `paths` in turn
  function PushEach(step: (Bytes, Bytes) -> Bytes, current: Bytes, paths: seq<Bytes>): Bytes
    decreases |paths|
  {
    if paths == [] then current
    else step(PushEach(step, current, paths[..|paths| - 1]), paths[|paths| - 1])
  }

  /// Applying a step to two lists is applying it to the first, then the
  /// second
  lemma {:induction false} PushEachAppend(step: (Bytes, Bytes) -> Bytes, current: Bytes, a: seq<Bytes>, b: seq<Bytes>)
    ensures PushEach(step, current, a + b) == PushEach(step, PushEach(step, current, a), b)
    decreases |b|
  {
    if b != [] {
      assert (a + b)[..|a + b| - 1] == a + b[..|b| - 1];
      PushEachAppend(step, current, a, b[..|b| - 1]);
    } else {
      assert a + b == a;
    }
  }

  /// The buffer after pushing each of `paths` in turn
  function PushedAll(enc: Encoding, current: Bytes, paths: seq<Bytes>): Bytes {
    PushEach((x, y) => Pushed(enc, x, y), current, paths)
  }

  /// Extending by two lists is extending by one, then the other
  lemma PushedAllAppend(enc: Encoding, current: Bytes, a: seq<Bytes>, b: seq<Bytes>)
    ensures PushedAll(enc, current, a + b) == PushedAll(enc, PushedAll(enc, current, a), b)
  {
    PushEachAppend((x, y) => Pushed(enc, x, y), current, a, b);
  }

  /// The length of the file name's extension, 0 when it has none
  function OldExtensionLen(enc: Encoding, data: Bytes): (n: nat)
    ensures n <= |data|
    ensures Extension(enc, data).Some? ==> n == |Extension(enc, data).value|
    ensures Extension(enc, data).None? ==> n == 0
  {
    match Extension(enc, data)
    case None => 0
    case Some(e) =>
      var parent, name := Parent(enc, data).value, FileName(enc, data).value;
      assert |parent + name| <= |data|;
      |e|
  }

  /// What `set_extension` leaves as written: the old extension's bytes
  /// cut off the END OF THE BUFFER, then a `.` there too, then `.` and the
  /// new extension unless the buffer already ends in `.`
  function ExtensionSetAsWritten(data: Bytes, oldExtLen: nat, ext: Bytes): Bytes
    requires oldExtLen <= |data|
  {
    var cut := if oldExtLen > 0 then data[..|data| - oldExtLen] else data;
    var trimmed := if oldExtLen > 0 && cut != [] && cut[|cut| - 1] == DOT then cut[..|cut| - 1] else cut;
    if ext == [] then trimmed
    else if trimmed != [] && trimmed[|trimmed| - 1] == DOT then trimmed + ext
    else trimmed + [DOT] + ext
  }

  /// What `set_extension` is documented to leave: the path up to the end
  /// of the file stem, then `.` and the extension unless that is empty
  function ExtensionSet(enc: Encoding, data: Bytes, ext: Bytes): (r: Bytes)
    requires FileStem(enc, data).Some?
  {
    Parent(enc, data).value + FileStem(enc, data).value + (if ext == [] then [] else [DOT] + ext)
  }

  /// Where the file stem ends in the buffer: the parent and the stem are
  /// the bytes before it
  function StemEnd(enc: Encoding, data: Bytes): (k: nat)
    requires FileStem(enc, data).Some?
    ensures k <= |data| && data[..k] == Parent(enc, data).value + FileStem(enc, data).value
  {
    var parent, name, stem := Parent(enc, data).value, FileName(enc, data).value, FileStem(enc, data).value;
    PrefixOfPrefix(data, parent, name, stem);
    |parent| + |stem|
  }

  lemma PrefixOfPrefix(data: Bytes, parent: Bytes, name: Bytes, stem: Bytes)
    requires StartsWith(data, parent + name) && StartsWith(name, stem)
    ensures |parent| + |stem| <= |data| && data[..|parent| + |stem|] == parent + stem
  {
    assert data[..|parent + name|] == parent + name;
    assert (parent + name)[..|parent| + |stem|] == parent + stem;
  }

  /// `PathBuf<T>`: the encoding `T` and the buffer `inner`
  class PathBuf {
    const enc: Encoding
    const inner: ByteVec

    /// `PathBuf::from` some bytes
    constructor (enc: Encoding, init: Bytes)
      ensures this.enc == enc && fresh(inner) && inner.data == init
    {
      this.enc := enc;
      inner := new ByteVec(init);
    }

    /// `push`: the encoding's push on the buffer
    method Push(path: Bytes)
      modifies inner
      ensures inner.data == Pushed(enc, old(inner.data), path)
    {
      if enc == Unix {
        UE.Push(inner, path);
      } else {
        WE.Push(inner, path);
      }
    }

    /// `pop`: cut the buffer back to its parent, if it has one
    method Pop() returns (popped: bool)
      modifies inner
      ensures popped <==> Parent(enc, old(inner.data)).Some?
      ensures popped ==> inner.data == Parent(enc, old(inner.data)).value
      ensures !popped ==> inner.data == old(inner.data)
    {
      match Parent(enc, inner.data)
      case None =>
        popped := false;
      case Some(p) =>
        inner.Truncate(|p|);
        popped := true;
    }

    /// `set_file_name`: pop the old file name, if there is one, then push
    method SetFileName(name: Bytes)
      modifies inner
      ensures var base := if FileName(enc, old(inner.data)).Some? then Parent(enc, old(inner.data)).value else old(inner.data);
              inner.data == Pushed(enc, base, name)
    {
      if FileName(enc, inner.data).Some? {
        var popped := Pop();
      }
      Push(name);
    }

    /// `set_extension` as written
    method SetExtensionAsWritten(ext: Bytes) returns (updated: bool)
      modifies inner
      ensures updated <==> FileStem(enc, old(inner.data)).Some?
      ensures !updated ==> inner.data == old(inner.data)
      ensures updated ==> inner.data == ExtensionSetAsWritten(old(inner.data), OldExtensionLen(enc, old(inner.data)), ext)
    {
      if FileStem(enc, inner.data).None? {
        return false;
      }
      CutAndExtend(inner, OldExtensionLen(enc, inner.data), ext);
      return true;
    }

    /// `set_extension` as documented: keep the path up to the end of the
    /// file stem, then add `.` and the extension
    method SetExtension(ext: Bytes) returns (updated: bool)
      modifies inner
      ensures updated <==> FileStem(enc, old(inner.data)).Some?
      ensures !updated ==> inner.data == old(inner.data)
      ensures updated ==> inner.data == ExtensionSet(enc, old(inner.data), ext)
    {
      if FileStem(enc, inner.data).None? {
        return false;
      }
      ghost var kept := Parent(enc, inner.data).value + FileStem(enc, inner.data).value;
      var k := StemEnd(enc, inner.data);
      KeepAndExtend(inner, k, kept, ext);
      return true;
    }

    /// `extend`: push each path in turn
    method Extend(paths: seq<Bytes>)
      modifies inner
      ensures inner.data == PushedAll(enc, old(inner.data), paths)
    {
      for i := 0 to |paths|
        invariant inner.data == PushedAll(enc, old(inner.data), paths[..i])
      {
        assert paths[..i + 1][..i] == paths[..i];
        Push(paths[i]);
      }
      assert paths[..|paths|] == paths;
    }

    /// `PartialEq` of buffers: their components, not their bytes
    method Equals(other: PathBuf) returns (b: bool)
      requires other.enc == enc
      ensures b <==> Eq(enc, inner.data, other.inner.data)
    {
      b := Cmp(enc, inner.data, other.inner.data) == Equal;
    }
  }

  /// The byte edits of `set_extension` as written, once the old
  /// extension's length is known
  method CutAndExtend(buf: ByteVec, oldExtLen: nat, ext: Bytes)
    requires oldExtLen <= |buf.data|
    modifies buf
    ensures buf.data == ExtensionSetAsWritten(old(buf.data), oldExtLen, ext)
  {
    if oldExtLen > 0 {
      buf.Truncate(|buf.data| - oldExtLen);
      if buf.data != [] && buf.data[|buf.data| - 1] == DOT {
        var _ := buf.Pop();
      }
    }
    if ext != [] {
      if !(buf.data != [] && buf.data[|buf.data| - 1] == DOT) {
        buf.Push(DOT);
      }
      buf.ExtendFromSlice(ext);
    }
  }

  /// Keep the first `k` bytes of the buffer, then add `.` and the
  /// extension unless it is empty
  method KeepAndExtend(buf: ByteVec, k: nat, ghost kept: Bytes, ext: Bytes)
    requires k <= |buf.data| && buf.data[..k] == kept
    modifies buf
    ensures buf.data == kept + (if ext == [] then [] else [DOT] + ext)
  {
    buf.Truncate(k);
    if ext != [] {
      buf.Push(DOT);
      buf.ExtendFromSlice(ext);
    }
  }

  /// `FromIterator`: an empty buffer extended by the paths
  method Collect(enc: Encoding, paths: seq<Bytes>) returns (buf: PathBuf)
    ensures fresh(buf) && buf.enc == enc
    ensures buf.inner.data == PushedAll(enc, [], paths)
  {
    buf := new PathBuf(enc, []);
    buf.Extend(paths);
  }

  /// `Path::join`: a copy of the path with `other` pushed
  method Join(enc: Encoding, path: Bytes, other: Bytes) returns (buf: PathBuf)
    ensures fresh(buf) && buf.enc == enc
    ensures buf.inner.data == Pushed(enc, path, other)
  {
    buf := new PathBuf(enc, path);
    buf.Push(other);
  }

  /// `Path::with_file_name`: a copy of the path with its file name set
  method WithFileName(enc: Encoding, path: Bytes, name: Bytes) returns (buf: PathBuf)
    ensures fresh(buf) && buf.enc == enc
    ensures var base := if FileName(enc, path).Some? then Parent(enc, path).value else path;
            buf.inner.data == Pushed(enc, base, name)
  {
    buf := new PathBuf(enc, path);
    buf.SetFileName(name);
  }

  /// `Path::with_extension`: a copy of the path with its extension set
  method WithExtension(enc: Encoding, path: Bytes, ext: Bytes) returns (buf: PathBuf)
    ensures fresh(buf) && buf.enc == enc
    ensures FileStem(enc, path).None? ==> buf.inner.data == path
    ensures FileStem(enc, path).Some? ==> buf.inner.data == ExtensionSet(enc, path, ext)
  {
    buf := new PathBuf(enc, path);
    var _ := buf.SetExtension(ext);
  }

  // ---------------------------------------------------------------------
  // `push` and `pop` of a file name
  // ---------------------------------------------------------------------

  /// On a Unix path, a pushed name becomes the file name, and `pop` goes
  /// back to the old buffer, with the separator `push` added, if any
  lemma UnixPushedName(current: Bytes, name: Bytes)
    requires UI.NameBytes(name) && name != UC.PARENT_DIR && name != UC.CURRENT_DIR
    ensures var r := Pushed(Unix, current, name);
            var dir := if current == [] || current[|current| - 1] == SLASH then current else current + [SLASH];
            FileName(Unix, r) == Some(name) && Parent(Unix, r) == Some(dir)
  {
    assert name[0] != SLASH;
    var dir := if current == [] || current[|current| - 1] == SLASH then current else current + [SLASH];
    assert Pushed(Unix, current, name) == dir + name + [];
    UnixFileNameOf(dir, name, []);
  }

  // ---------------------------------------------------------------------
  // What `set_extension` does to the file stem and the extension
  // ---------------------------------------------------------------------

  /// Splitting at a `.` that is followed by no other `.` is unique
  lemma DotSplitUnique(b1: Bytes, a1: Bytes, b2: Bytes, a2: Bytes)
    requires b1 + [DOT] + a1 == b2 + [DOT] + a2
    requires forall k | 0 <= k < |a1| :: a1[k] != DOT
    requires forall k | 0 <= k < |a2| :: a2[k] != DOT
    ensures b1 == b2 && a1 == a2
  {
    var s := b1 + [DOT] + a1;
    assert s[|b1|] == DOT && s[|b2|] == DOT;
    assert forall k | |b1| < k < |s| :: s[k] == a1[k - |b1| - 1];
    assert forall k | |b2| < k < |s| :: s[k] == a2[k - |b2| - 1];
    assert |b1| == |b2|;
    assert b1 == s[..|b1|] && b2 == s[..|b2|];
    assert a1 == s[|b1| + 1..] && a2 == s[|b2| + 1..];
  }

  /// A non-empty stem, `.` and a `.`-free extension split back into the two
  lemma SplitAtLastDot(stem: Bytes, ext: Bytes)
    requires stem != [] && stem + [DOT] + ext != UC.PARENT_DIR
    requires forall k | 0 <= k < |ext| :: ext[k] != DOT
    ensures RSplitFileAtDot(stem + [DOT] + ext) == (Some(stem), Some(ext))
  {
    var name := stem + [DOT] + ext;
    assert name[|stem|] == DOT;
    var r := RSplitFileAtDot(name);
    DotSplitUnique(r.0.value, r.1.value, stem, ext);
  }

  /// The file stem of a Unix file name is itself a name
  lemma UnixStemBytes(p: Bytes)
    requires FileStem(Unix, p).Some?
    ensures UI.NameBytes(FileStem(Unix, p).value)
  {
    UnixFileNameBytes(p);
    var name, stem := FileName(Unix, p).value, FileStem(Unix, p).value;
    assert stem != [] by {
      var r := RSplitFileAtDot(name);
      assert r.0.Some? ==> r.0.value != [] || r.1.None?;
    }
    assert forall k | 0 <= k < |stem| :: stem[k] == name[k];
  }

  /// A stem, `.` and an extension, both names, make a name
  lemma NameWithExtension(stem: Bytes, ext: Bytes)
    requires UI.NameBytes(stem) && UI.NameBytes(ext)
    ensures UI.NameBytes(stem + [DOT] + ext)
  {
    var name := stem + [DOT] + ext;
    assert forall k | 0 <= k < |name| :: name[k] == (if k < |stem| then stem[k] else if k == |stem| then DOT else ext[k - |stem| - 1]);
  }

  /// A Unix path that ends in a stem, `.` and an extension has that file
  /// stem and that extension, and the directory before them as its parent
  lemma UnixStemAndExtension(dir: Bytes, stem: Bytes, ext: Bytes)
    requires dir == [] || dir[|dir| - 1] == SLASH
    requires UI.NameBytes(stem) && UI.NameBytes(ext) && forall k | 0 <= k < |ext| :: ext[k] != DOT
    ensures var p := dir + (stem + [DOT] + ext);
            Parent(Unix, p) == Some(dir) && FileStem(Unix, p) == Some(stem) && Extension(Unix, p) == Some(ext)
  {
    var name := stem + [DOT] + ext;
    NameWithExtension(stem, ext);
    assert |name| >= 3;
    assert dir + name + [] == dir + name;
    UnixFileNameOf(dir, name, []);
    SplitAtLastDot(stem, ext);
  }

  /// The documented result of setting `ext` on a Unix path is its parent,
  /// then a stem that is a name, `.` and `ext`
  lemma UnixExtensionSetShape(data: Bytes, ext: Bytes) returns (parent: Bytes, stem: Bytes)
    requires FileStem(Unix, data).Some?
    ensures Parent(Unix, data) == Some(parent) && FileStem(Unix, data) == Some(stem)
    ensures parent == [] || parent[|parent| - 1] == SLASH
    ensures UI.NameBytes(stem)
    ensures ext != [] ==> ExtensionSet(Unix, data, ext) == parent + (stem + [DOT] + ext)
  {
    parent, stem := Parent(Unix, data).value, FileStem(Unix, data).value;
    UnixStemBytes(data);
    assert parent != [] ==> IsSeparator(Unix, parent[|parent| - 1]);
    if ext != [] {
      assert ExtensionSet(Unix, data, ext) == parent + stem + ([DOT] + ext);
      ConcatAssoc(parent, stem, [DOT] + ext);
      ConcatAssoc(stem, [DOT], ext);
    }
  }

  /// On a Unix path, setting a non-empty extension that is a name without a
  /// `.` keeps the parent and the file stem, and makes that the extension
  lemma UnixExtensionSetKeepsStem(data: Bytes, ext: Bytes)
    requires FileStem(Unix, data).Some?
    requires UI.NameBytes(ext) && forall k | 0 <= k < |ext| :: ext[k] != DOT
    ensures var r := ExtensionSet(Unix, data, ext);
            Parent(Unix, r) == Parent(Unix, data) && FileStem(Unix, r) == FileStem(Unix, data)
            && Extension(Unix, r) == Some(ext)
  {
    var parent, stem := UnixExtensionSetShape(data, ext);
    UnixStemAndExtension(parent, stem, ext);
  }

  /// As written, `set_extension` cuts the old extension's length off the
  /// end of the buffer, which is not where the extension ends when a
  /// separator follows the file name: the separator and the old
  /// extension's tail go, its first byte stays (`/feel/the.rs/` with
  /// `force` becomes `/feel/the.r.force`, where `/feel/the.force` is meant)
  lemma SetExtensionPastSeparator(dir: Bytes, stem: Bytes, oldExt: Bytes, ext: Bytes)
    requires dir == [] || dir[|dir| - 1] == SLASH
    requires UI.NameBytes(stem) && UI.NameBytes(oldExt) && forall k | 0 <= k < |oldExt| :: oldExt[k] != DOT
    requires ext != []
    ensures var data := dir + (stem + [DOT] + oldExt) + [SLASH];
            ExtensionSetAsWritten(data, OldExtensionLen(Unix, data), ext) == dir + stem + [DOT, oldExt[0], DOT] + ext
            && ExtensionSet(Unix, data, ext) == dir + stem + ([DOT] + ext)
  {
    var data := dir + (stem + [DOT] + oldExt) + [SLASH];
    NameBeforeSeparator(dir, stem, oldExt);
    var cut := SeparatedCut(dir, stem, oldExt, ext);
    CutEndsOutsideDot(data, |oldExt|, ext, cut);
  }

  /// Cutting an extension's length off a name with that extension and a
  /// separator after it keeps the extension's first byte
  lemma SeparatedCut(dir: Bytes, stem: Bytes, oldExt: Bytes, ext: Bytes) returns (cut: Bytes)
    requires oldExt != [] && oldExt[0] != DOT
    ensures var data := dir + (stem + [DOT] + oldExt) + [SLASH];
            cut == data[..|data| - |oldExt|] && cut != [] && cut[|cut| - 1] != DOT
            && cut + [DOT] + ext == dir + stem + [DOT, oldExt[0], DOT] + ext
  {
    var data := dir + (stem + [DOT] + oldExt) + [SLASH];
    cut := dir + stem + [DOT, oldExt[0]];
    assert data == cut + oldExt[1..] + [SLASH];
    assert data[..|data| - |oldExt|] == cut;
  }

  /// A name with an extension, then a separator: its parent, stem and
  /// extension are those of the name without the separator
  lemma NameBeforeSeparator(dir: Bytes, stem: Bytes, oldExt: Bytes)
    requires dir == [] || dir[|dir| - 1] == SLASH
    requires UI.NameBytes(stem) && UI.NameBytes(oldExt) && forall k | 0 <= k < |oldExt| :: oldExt[k] != DOT
    ensures var data := dir + (stem + [DOT] + oldExt) + [SLASH];
            Parent(Unix, data) == Some(dir) && FileStem(Unix, data) == Some(stem)
            && OldExtensionLen(Unix, data) == |oldExt|
  {
    var name := stem + [DOT] + oldExt;
    NameWithExtension(stem, oldExt);
    UnixFileNameOf(dir, name, [SLASH]);
    SplitAtLastDot(stem, oldExt);
  }

  /// `set_extension` as written, when the bytes left after the cut do not
  /// end in `.`
  lemma CutEndsOutsideDot(data: Bytes, n: nat, ext: Bytes, cut: Bytes)
    requires 0 < n <= |data| && cut == data[..|data| - n] && ext != []
    requires cut != [] && cut[|cut| - 1] != DOT
    ensures ExtensionSetAsWritten(data, n, ext) == cut + [DOT] + ext
  {
  }

  /// `set_extension` as written, when the bytes left after the cut end in
  /// two `.`: one is popped and the other serves as the separator
  lemma CutEndsInDots(data: Bytes, n: nat, ext: Bytes, cut: Bytes)
    requires 0 < n <= |data| && cut == data[..|data| - n] && ext != []
    requires |cut| >= 2 && cut[|cut| - 1] == DOT && cut[|cut| - 2] == DOT
    ensures ExtensionSetAsWritten(data, n, ext) == cut[..|cut| - 1] + ext
  {
    var trimmed := cut[..|cut| - 1];
    assert trimmed[|trimmed| - 1] == DOT;
  }

  /// As written, `set_extension` also drops a `.` that ends the file stem:
  /// the stem `s.` loses its `.` (`a..b` with `c` becomes `a.c`, whose stem
  /// is `a`; the documented result is `a..c`)
  lemma SetExtensionEatsStemDot(dir: Bytes, s: Bytes, oldExt: Bytes, ext: Bytes)
    requires dir == [] || dir[|dir| - 1] == SLASH
    requires UI.NameBytes(s) && UI.NameBytes(oldExt) && forall k | 0 <= k < |oldExt| :: oldExt[k] != DOT
    requires UI.NameBytes(ext) && forall k | 0 <= k < |ext| :: ext[k] != DOT
    ensures var data := dir + ((s + [DOT]) + [DOT] + oldExt);
            var written := ExtensionSetAsWritten(data, OldExtensionLen(Unix, data), ext);
            FileStem(Unix, data) == Some(s + [DOT])
            && written == dir + (s + [DOT] + ext)
            && FileStem(Unix, written) == Some(s)
            && ExtensionSet(Unix, data, ext) == dir + (s + [DOT]) + ([DOT] + ext)
  {
    StemDotNameBytes(s);
    UnixStemAndExtension(dir, s + [DOT], oldExt);
    StemDotWritten(dir, s, oldExt, ext);
  }

  /// A name followed by `.` is still a name
  lemma StemDotNameBytes(s: Bytes)
    requires UI.NameBytes(s)
    ensures UI.NameBytes(s + [DOT])
  {
    var stem := s + [DOT];
    assert forall k | 0 <= k < |stem| :: stem[k] == if k < |s| then s[k] else DOT;
  }

  /// The written half of `SetExtensionEatsStemDot`
  lemma StemDotWritten(dir: Bytes, s: Bytes, oldExt: Bytes, ext: Bytes)
    requires dir == [] || dir[|dir| - 1] == SLASH
    requires UI.NameBytes(s) && UI.NameBytes(oldExt) && forall k | 0 <= k < |oldExt| :: oldExt[k] != DOT
    requires UI.NameBytes(ext) && forall k | 0 <= k < |ext| :: ext[k] != DOT
    requires Extension(Unix, dir + ((s + [DOT]) + [DOT] + oldExt)) == Some(oldExt)
    ensures var data := dir + ((s + [DOT]) + [DOT] + oldExt);
            var written := ExtensionSetAsWritten(data, OldExtensionLen(Unix, data), ext);
            written == dir + (s + [DOT] + ext) && FileStem(Unix, written) == Some(s)
  {
    var data := dir + ((s + [DOT]) + [DOT] + oldExt);
    var cut := StemDotCut(dir, s, oldExt, ext);
    CutEndsInDots(data, |oldExt|, ext, cut);
    UnixStemAndExtension(dir, s, ext);
  }

  /// Cutting an extension's length off a name whose stem ends in `.`
  /// leaves two `.` at the end
  lemma StemDotCut(dir: Bytes, s: Bytes, oldExt: Bytes, ext: Bytes) returns (cut: Bytes)
    requires oldExt != []
    ensures var data := dir + ((s + [DOT]) + [DOT] + oldExt);
            cut == data[..|data| - |oldExt|] && |cut| >= 2 && cut[|cut| - 1] == DOT && cut[|cut| - 2] == DOT
            && cut[..|cut| - 1] + ext == dir + (s + [DOT] + ext)
  {
    var data := dir + ((s + [DOT]) + [DOT] + oldExt);
    cut := dir + s + [DOT, DOT];
    assert data == cut + oldExt;
    assert data[..|data| - |oldExt|] == cut;
    assert cut[..|cut| - 1] == dir + s + [DOT];
  }

  /// As written, a name without extension followed by a separator gets the
  /// `.` and the extension after the separator (`/feel/the/` with `force`
  /// becomes `/feel/the/.force`, where `/feel/the.force` is meant)
  lemma SetExtensionAfterSeparator(dir: Bytes, name: Bytes, ext: Bytes)
    requires dir == [] || dir[|dir| - 1] == SLASH
    requires UI.NameBytes(name) && forall k | 0 <= k < |name| :: name[k] != DOT
    requires ext != []
    ensures var data := dir + name + [SLASH];
            FileStem(Unix, data) == Some(name)
            && ExtensionSetAsWritten(data, OldExtensionLen(Unix, data), ext) == data + [DOT] + ext
            && ExtensionSet(Unix, data, ext) == dir + name + ([DOT] + ext)
  {
    var data := dir + name + [SLASH];
    assert name[0] != DOT;
    UnixFileNameOf(dir, name, [SLASH]);
    assert Extension(Unix, data).None?;
  }

  /// As written, an empty extension leaves a name ending in `.` as it is,
  /// since that extension is empty and nothing is cut (`foo.` with `` stays
  /// `foo.`, where the extension is to be replaced and `foo` is meant)
  lemma SetEmptyExtensionKeepsDot(dir: Bytes, stem: Bytes)
    requires dir == [] || dir[|dir| - 1] == SLASH
    requires UI.NameBytes(stem) && stem != UC.CURRENT_DIR
    ensures var data := dir + (stem + [DOT]);
            Extension(Unix, data) == Some([])
            && ExtensionSetAsWritten(data, OldExtensionLen(Unix, data), []) == data
            && ExtensionSet(Unix, data, []) == dir + stem
  {
    StemDotReads(dir, stem);
  }

  /// A name ending in `.` has the empty extension and the rest as its stem
  lemma StemDotReads(dir: Bytes, stem: Bytes)
    requires dir == [] || dir[|dir| - 1] == SLASH
    requires UI.NameBytes(stem) && stem != UC.CURRENT_DIR
    ensures var data := dir + (stem + [DOT]);
            Parent(Unix, data) == Some(dir) && Extension(Unix, data) == Some([]) && FileStem(Unix, data) == Some(stem)
  {
    var data := dir + (stem + [DOT]);
    var name := stem + [DOT];
    StemDotNameBytes(stem);
    assert name[..|stem|] == stem;
    assert name != UC.PARENT_DIR && name != UC.CURRENT_DIR;
    assert dir + name + [] == data;
    UnixFileNameOf(dir, name, []);
    assert stem + [DOT] + [] == name;
    SplitAtLastDot(stem, []);
  }
}
