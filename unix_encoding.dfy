/// `UnixEncoding`: how a Unix path buffer grows by `push`, and which bytes
/// `hash` feeds to the hasher so that equal paths hash alike.
module UnixEncodingModel {
  import opened ByteSeq
  import opened Combinators
  import opened UnixComponentModel
  import opened UnixGrammar
  import opened UnixPathParser
  import opened UnixPathParserProperties
  import opened UnixIncrementalProperties
  import opened UnixBackProperties
  import opened UnixComponentsModel

  // ---------------------------------------------------------------- push

  /// The buffer `push` leaves: unchanged for an empty path, replaced by an
  /// absolute one, otherwise extended with one `/` between the two parts
  /// unless the buffer is empty or already ends with `/`
  function Pushed(current: Bytes, path: Bytes): (r: Bytes)
    ensures path != [] ==> EndsWith(r, path)
    ensures path != [] && path[0] != SLASH ==> StartsWith(r, current)
    ensures path != [] && path[0] != SLASH ==> |r| <= |current| + 1 + |path|
  {
    if path == [] then current
    else if path[0] == SLASH then path
    else if current != [] && current[|current| - 1] != SLASH then current + [SLASH] + path
    else current + path
  }

  /// `push`: clears the buffer for an absolute path, adds the separator a
  /// relative path needs, then appends the path's bytes
  method Push(currentPath: ByteVec, path: Bytes)
    modifies currentPath
    ensures currentPath.data == Pushed(old(currentPath.data), path)
  {
    if path == [] {
      return;
    }
    var components := new UnixComponents(path);
    var absolute := components.IsAbsolute();
    if absolute {
      currentPath.Clear();
    } else if currentPath.data != [] && !EndsWith(currentPath.data, [SLASH]) {
      currentPath.Push(SLASH);
    }
    currentPath.ExtendFromSlice(path);
  }

  /// A path that starts with a name has at least one segment
  lemma SegmentsOfName(s: Bytes)
    requires s != [] && s[0] != SLASH
    ensures Segments(s) != []
  {
    SegmentsStep(s);
  }

  /// A non-empty buffer with the separator `push` adds: the same
  /// segments and first byte, ending with `/`
  lemma JoinedBuffer(current: Bytes, path: Bytes) returns (joined: Bytes)
    requires current != [] && path != [] && path[0] != SLASH
    ensures Pushed(current, path) == joined + path
    ensures joined != [] && joined[|joined| - 1] == SLASH && joined[0] == current[0]
    ensures Segments(joined) == Segments(current)
  {
    joined := if current[|current| - 1] != SLASH then current + [SLASH] else current;
    if joined != current {
      SegmentsAppend(current, [SLASH]);
      assert Segments([SLASH]) == Segments([]);
      assert Segments(current) + [] == Segments(current);
    }
  }

  /// Appending names after a separator appends their components, `.`
  /// aside
  lemma AppendAfterSeparator(joined: Bytes, path: Bytes)
    requires joined != [] && joined[|joined| - 1] == SLASH && path != []
    ensures SpecComponents(joined + path)
         == (if joined[0] == SLASH then [RootDir] else [])
            + (DropCurDirs(ClassifyAll(Segments(joined)), 0, joined[0] == SLASH)
               + DropCurDirs(ClassifyAll(Segments(path)), |Segments(joined)|, joined[0] == SLASH))
  {
    SegmentsAppend(joined, path);
    assert (joined + path)[0] == joined[0];
    ClassifyAllAppend(Segments(joined), Segments(path));
    DropCurDirsAppend(ClassifyAll(Segments(joined)), ClassifyAll(Segments(path)), 0, joined[0] == SLASH);
  }

  /// Pushing a relative path appends its components, `.` aside, to those
  /// of the buffer; the root and the components already there stay
  lemma PushAppendsComponents(current: Bytes, path: Bytes)
    requires current != [] && path != [] && path[0] != SLASH
    ensures SpecComponents(Pushed(current, path)) == SpecComponents(current) + Later(path)
  {
    var joined := JoinedBuffer(current, path);
    AppendAfterSeparator(joined, path);
    var hasRoot := current[0] == SLASH;
    if !hasRoot {
      SegmentsOfName(current);
    }
    DropAllSame(ClassifyAll(Segments(path)), |Segments(current)|, hasRoot);
    var root: seq<UnixComponent> := if hasRoot then [RootDir] else [];
    ConcatAssoc(root, DropCurDirs(ClassifyAll(Segments(current)), 0, hasRoot), Later(path));
  }

  // ---------------------------------------------------------------- hash

  /// What a hasher is handed: byte chunks, then one length
  datatype HashWrite = Write(chunk: Bytes) | WriteUsize(n: nat)

  /// The hasher `hash` writes into, as the list of calls it receives
  class Hasher {
    var writes: seq<HashWrite>

    constructor ()
      ensures writes == []
    {
      writes := [];
    }

    method Write(chunk: Bytes)
      modifies this
      ensures writes == old(writes) + [HashWrite.Write(chunk)]
    {
      writes := writes + [HashWrite.Write(chunk)];
    }

    method WriteUsize(n: nat)
      modifies this
      ensures writes == old(writes) + [HashWrite.WriteUsize(n)]
    {
      writes := writes + [HashWrite.WriteUsize(n)];
    }
  }

  function TotalLen(chunks: seq<Bytes>): nat {
    if chunks == [] then 0 else |chunks[0]| + TotalLen(chunks[1..])
  }

  lemma {:induction false} TotalLenAppend(a: seq<Bytes>, b: seq<Bytes>)
    ensures TotalLen(a + b) == TotalLen(a) + TotalLen(b)
    decreases |a|
  {
    if a == [] {
      assert a + b == b;
    } else {
      assert (a + b)[1..] == a[1..] + b;
      TotalLenAppend(a[1..], b);
    }
  }

  function WritesOf(chunks: seq<Bytes>): (w: seq<HashWrite>)
    ensures |w| == |chunks|
  {
    if chunks == [] then [] else [HashWrite.Write(chunks[0])] + WritesOf(chunks[1..])
  }

  lemma {:induction false} WritesOfAppend(a: seq<Bytes>, b: seq<Bytes>)
    ensures WritesOf(a + b) == WritesOf(a) + WritesOf(b)
    decreases |a|
  {
    if a == [] {
      assert a + b == b;
    } else {
      assert (a + b)[1..] == a[1..] + b;
      WritesOfAppend(a[1..], b);
    }
  }

  /// How far `hash` moves the chunk start past a separator (the `match` on
  /// the tail): over a `.` that is followed by the end or another separator
  function DotSkip(tail: Bytes): nat {
    if tail == [DOT] || (|tail| >= 2 && tail[0] == DOT && tail[1] == SLASH) then 1 else 0
  }

  /// The chunks the loop of `hash` writes from index `i` on, with the
  /// current chunk starting at `start`, including the final one
  function Scan(path: Bytes, i: nat, start: nat): seq<Bytes>
    requires i <= |path| && start <= |path|
    decreases |path| - i
  {
    if i == |path| then
      if start < |path| then [path[start..]] else []
    else if path[i] == SLASH then
      (if i > start then [path[start..i]] else []) + Scan(path, i + 1, i + 1 + DotSkip(path[i + 1..]))
    else Scan(path, i + 1, start)
  }

  /// The segments `hash` keeps: all but `.`, which survives only as the
  /// first segment when `keepFirstDot` holds
  function KeptSegments(segs: seq<Bytes>, keepFirstDot: bool): (r: seq<Bytes>)
    ensures |r| <= |segs|
  {
    if segs == [] then []
    else
      (if segs[0] == CURRENT_DIR && !keepFirstDot then [] else [segs[0]]) + KeptSegments(segs[1..], false)
  }

  function ImagesOf(cs: seq<UnixComponent>): seq<Bytes> {
    if cs == [] then [] else [AsBytes(cs[0])] + ImagesOf(cs[1..])
  }

  /// The segments `hash` keeps are the bytes of the components `.`-dropping
  /// leaves, root aside
  lemma {:induction false} KeptAreImages(segs: seq<Bytes>, index: nat, hasRoot: bool)
    requires forall k | 0 <= k < |segs| :: segs[k] != []
    ensures ImagesOf(DropCurDirs(ClassifyAll(segs), index, hasRoot)) == KeptSegments(segs, index == 0 && !hasRoot)
    decreases |segs|
  {
    if segs != [] {
      var names := ClassifyAll(segs);
      assert names[0] == Classify(segs[0]) && names[1..] == ClassifyAll(segs[1..]);
      assert AsBytes(Classify(segs[0])) == segs[0];
      KeptAreImages(segs[1..], index + 1, hasRoot);
    }
  }

  /// The loop passes over the bytes of a name without writing
  lemma {:induction false} ScanSkipsName(path: Bytes, i: nat, start: nat, m: nat)
    requires i <= m <= |path| && start <= |path|
    requires forall k | i <= k < m :: path[k] != SLASH
    ensures Scan(path, i, start) == Scan(path, m, start)
    decreases m - i
  {
    if i < m {
      ScanSkipsName(path, i + 1, start, m);
    }
  }

  /// The skipped `.` after a separator is itself passed over
  lemma ScanAfterSeparator(path: Bytes, q: nat)
    requires q < |path| && path[q] == SLASH
    ensures var q' := q + 1 + DotSkip(path[q + 1..]);
            q' <= |path| && Scan(path, q, q) == Scan(path, q', q')
  {
    var q' := q + 1 + DotSkip(path[q + 1..]);
    if q' == q + 2 {
      assert Scan(path, q + 1, q') == Scan(path, q', q');
    }
  }

  /// `.` segments are dropped after the first either way
  lemma KeptFirstNotDot(segs: seq<Bytes>)
    requires segs == [] || segs[0] != CURRENT_DIR
    ensures KeptSegments(segs, true) == KeptSegments(segs, false)
  {
  }

  /// The segments of what follows a separator, with a skipped `.` removed
  lemma SegmentsAfterSeparator(path: Bytes, q: nat)
    requires q < |path| && path[q] == SLASH
    ensures var q' := q + 1 + DotSkip(path[q + 1..]);
            q' <= |path| &&
            KeptSegments(Segments(path[q..]), false) == KeptSegments(Segments(path[q'..]), q' < |path| && path[q'] != SLASH)
  {
    assert path[q..][1..] == path[q + 1..];
    assert Segments(path[q..]) == Segments(path[q + 1..]);
    var t := path[q + 1..];
    if DotSkip(t) == 1 {
      SegmentsAfterDot(path, q + 1);
    } else if t != [] && t[0] != SLASH {
      NotDotFirst(path, q + 1);
    }
  }

  /// A `.` that `DotSkip` passes over is a whole segment
  lemma SegmentsAfterDot(path: Bytes, p: nat)
    requires p <= |path| && DotSkip(path[p..]) == 1
    ensures p + 1 <= |path| && (p + 1 == |path| || path[p + 1] == SLASH)
    ensures KeptSegments(Segments(path[p..]), false) == KeptSegments(Segments(path[p + 1..]), false)
  {
    SegmentsOfNameAt(path, p, p + 1);
    assert path[p..p + 1] == CURRENT_DIR;
  }

  /// A first segment that `DotSkip` does not pass over is not `.`
  lemma NotDotFirst(path: Bytes, p: nat)
    requires p < |path| && path[p] != SLASH && DotSkip(path[p..]) == 0
    ensures KeptSegments(Segments(path[p..]), false) == KeptSegments(Segments(path[p..]), true)
  {
    var t := path[p..];
    SegmentsStep(t);
    var n := FirstMatch(IsSlash, t);
    KeptFirstNotDot(Segments(t));
  }

  /// The segments of a path that starts with a name, split at its first
  /// separator
  lemma SegmentsOfNameAt(path: Bytes, q: nat, m: nat)
    requires q < m <= |path| && path[q] != SLASH
    requires forall k | q <= k < m :: path[k] != SLASH
    requires m < |path| ==> path[m] == SLASH
    ensures Segments(path[q..]) == [path[q..m]] + Segments(path[m..])
  {
    var t := path[q..];
    FirstMatchUnique(IsSlash, t, m - q);
    SegmentsStep(t);
    assert t[..m - q] == path[q..m] && t[m - q..] == path[m..];
  }

  /// From a chunk start `q`, the loop writes the segments of the rest of
  /// the path that `hash` keeps: a `.` only where it starts at `q` itself
  lemma {:induction false} ScanKeeps(path: Bytes, q: nat)
    requires q <= |path|
    ensures Scan(path, q, q) == KeptSegments(Segments(path[q..]), q < |path| && path[q] != SLASH)
    decreases |path| - q, 1
  {
    if q == |path| {
      assert path[q..] == [];
    } else if path[q] == SLASH {
      ScanAfterSeparator(path, q);
      SegmentsAfterSeparator(path, q);
      ScanKeeps(path, q + 1 + DotSkip(path[q + 1..]));
    } else {
      ScanKeepsName(path, q);
    }
  }

  /// A segment kept in first place heads what is kept
  lemma KeptCons(seg: Bytes, rest: seq<Bytes>)
    ensures KeptSegments([seg] + rest, true) == [seg] + KeptSegments(rest, false)
  {
    assert ([seg] + rest)[1..] == rest;
  }

  /// At the separator ending a name, the loop writes the name and carries
  /// on as from a fresh chunk start there
  lemma ScanWritesName(path: Bytes, q: nat, m: nat)
    requires q < m < |path| && path[m] == SLASH
    ensures Scan(path, m, q) == [path[q..m]] + Scan(path, m, m)
  {
  }

  /// The case of `ScanKeeps` where a name starts at `q`
  lemma {:induction false} ScanKeepsName(path: Bytes, q: nat)
    requires q < |path| && path[q] != SLASH
    ensures Scan(path, q, q) == KeptSegments(Segments(path[q..]), true)
    decreases |path| - q, 0
  {
    var m := q + FirstMatch(IsSlash, path[q..]);
    assert forall k | q <= k < m :: path[k] == path[q..][k - q];
    ScanSkipsName(path, q, q, m);
    SegmentsOfNameAt(path, q, m);
    KeptCons(path[q..m], Segments(path[m..]));
    if m == |path| {
      assert path[m..] == [] && path[q..m] == path[q..];
    } else {
      ScanWritesName(path, q, m);
      ScanKeeps(path, m);
    }
  }

  /// The chunks `hash` writes for a path
  function HashChunks(path: Bytes): (chunks: seq<Bytes>)
    ensures chunks == KeptSegments(Segments(path), path != [] && path[0] != SLASH)
  {
    ScanKeeps(path, 0);
    assert path[0..] == path;
    Scan(path, 0, 0)
  }

  /// Everything `hash` hands the hasher: each kept segment, then the
  /// number of bytes in them
  function HashWrites(path: Bytes): (w: seq<HashWrite>)
    ensures w == WritesOf(HashChunks(path)) + [WriteUsize(TotalLen(HashChunks(path)))]
    ensures var hasRoot := path != [] && path[0] == SLASH;
            w == WritesOf(ImagesOf(DropCurDirs(ClassifyAll(Segments(path)), 0, hasRoot)))
                 + [WriteUsize(TotalLen(ImagesOf(DropCurDirs(ClassifyAll(Segments(path)), 0, hasRoot))))]
  {
    SegmentsNonEmpty(path);
    KeptAreImages(Segments(path), 0, path != [] && path[0] == SLASH);
    WritesOf(HashChunks(path)) + [WriteUsize(TotalLen(HashChunks(path)))]
  }

  lemma {:induction false} SegmentsNonEmpty(s: Bytes)
    ensures forall k | 0 <= k < |Segments(s)| :: Segments(s)[k] != []
    decreases |s|
  {
    if s != [] {
      if s[0] == SLASH {
        SegmentsNonEmpty(s[1..]);
      } else {
        SegmentsStep(s);
        SegmentsNonEmpty(s[FirstMatch(IsSlash, s)..]);
      }
    }
  }

  lemma ScanAtSeparator(path: Bytes, i: nat, start: nat)
    requires i < |path| && start <= |path| && path[i] == SLASH
    ensures i + 1 + DotSkip(path[i + 1..]) <= |path|
    ensures Scan(path, i, start)
         == (if i > start then [path[start..i]] else []) + Scan(path, i + 1, i + 1 + DotSkip(path[i + 1..]))
  {
  }

  lemma ScanAtName(path: Bytes, i: nat, start: nat)
    requires i < |path| && start <= |path| && path[i] != SLASH
    ensures Scan(path, i, start) == Scan(path, i + 1, start)
  {
  }

  lemma RegroupWritten(written: seq<Bytes>, chunk: seq<Bytes>, rest: seq<Bytes>, whole: seq<Bytes>)
    requires written + (chunk + rest) == whole
    ensures (written + chunk) + rest == whole
  {
  }

  /// `hash`: the loop over the bytes, writing each chunk that ends at a
  /// separator and skipping a `.` right after one, then the last chunk and
  /// the count of bytes written
  method Hash(path: Bytes, h: Hasher)
    modifies h
    ensures h.writes == old(h.writes) + WritesOf(Scan(path, 0, 0)) + [WriteUsize(TotalLen(Scan(path, 0, 0)))]
  {
    var componentStart: nat := 0;
    var bytesHashed: nat := 0;
    ghost var written: seq<Bytes> := [];
    for i := 0 to |path|
      invariant componentStart <= |path|
      invariant written + Scan(path, i, componentStart) == Scan(path, 0, 0)
      invariant h.writes == old(h.writes) + WritesOf(written)
      invariant bytesHashed == TotalLen(written)
    {
      var isSep := path[i] == SLASH;
      if isSep {
        ghost var next := i + 1 + DotSkip(path[i + 1..]);
        ghost var chunk := if i > componentStart then [path[componentStart..i]] else [];
        ScanAtSeparator(path, i, componentStart);
        RegroupWritten(written, chunk, Scan(path, i + 1, next), Scan(path, 0, 0));
        if i > componentStart {
          var toHash := path[componentStart..i];
          h.Write(toHash);
          bytesHashed := bytesHashed + |toHash|;
          WritesOfAppend(written, [toHash]);
          TotalLenAppend(written, [toHash]);
        } else {
          assert written + chunk == written;
        }
        written := written + chunk;
        componentStart := i + 1;
        var tail := path[componentStart..];
        componentStart := componentStart + DotSkip(tail);
      } else {
        ScanAtName(path, i, componentStart);
      }
    }
    if componentStart < |path| {
      var toHash := path[componentStart..];
      h.Write(toHash);
      bytesHashed := bytesHashed + |toHash|;
      WritesOfAppend(written, [toHash]);
      TotalLenAppend(written, [toHash]);
      written := written + [toHash];
    }
    assert written == Scan(path, 0, 0);
    h.WriteUsize(bytesHashed);

  }

  /// What the loop of `hash` writes is `HashWrites`
  lemma HashWritesIsScan(path: Bytes)
    ensures HashWrites(path) == WritesOf(Scan(path, 0, 0)) + [WriteUsize(TotalLen(Scan(path, 0, 0)))]
  {
  }

  lemma HashWritesOfComponents(path: Bytes)
    ensures var d := DropCurDirs(ClassifyAll(Segments(path)), 0, path != [] && path[0] == SLASH);
            HashWrites(path) == WritesOf(ImagesOf(d)) + [WriteUsize(TotalLen(ImagesOf(d)))]
  {
  }

  /// The whole-path reading starts with the root exactly when the path
  /// starts with `/`
  lemma RootLeads(p: Bytes)
    ensures (SpecComponents(p) != [] && SpecComponents(p)[0] == RootDir) <==> (p != [] && p[0] == SLASH)
  {
    NoRootInNames(Segments(p), 0, p != [] && p[0] == SLASH);
  }

  /// Paths with the same components hash alike: `hash` agrees with `eq`
  lemma HashRespectsComponents(p: Bytes, q: Bytes)
    requires SpecComponents(p) == SpecComponents(q)
    ensures HashWrites(p) == HashWrites(q)
  {
    RootLeads(p);
    RootLeads(q);
    var hasRoot := p != [] && p[0] == SLASH;
    var dp := DropCurDirs(ClassifyAll(Segments(p)), 0, hasRoot);
    var dq := DropCurDirs(ClassifyAll(Segments(q)), 0, hasRoot);
    if hasRoot {
      assert dp == SpecComponents(p)[1..];
      assert dq == SpecComponents(q)[1..];
    } else {
      assert dp == SpecComponents(p);
      assert dq == SpecComponents(q);
    }
    HashWritesOfComponents(p);
    HashWritesOfComponents(q);
  }

  /// The segment reading never produces a root past the first component
  lemma NoRootInNames(segs: seq<Bytes>, index: nat, hasRoot: bool)
    ensures forall i | 0 <= i < |DropCurDirs(ClassifyAll(segs), index, hasRoot)| ::
              !DropCurDirs(ClassifyAll(segs), index, hasRoot)[i].RootDir?
  {
    var names := ClassifyAll(segs);
    assert forall i | 0 <= i < |names| :: !names[i].RootDir? by {
      ClassifyAllNoRoot(segs);
    }
  }
}
