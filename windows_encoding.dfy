/// `WindowsEncoding`: how a Windows path buffer grows by `push`, with its
/// four rules (replace, rebuild under a prefix, keep the prefix under a new
/// root, append with a separator), and which bytes `hash` feeds the hasher.
module WindowsEncodingModel {
  import opened ByteSeq
  import opened WindowsComponentModel
  import opened WindowsStepGrammar
  import opened WindowsIncremental
  import opened WindowsIncrementalProperties
  import opened WindowsComponentsModel

  // ---------------------------------------------------------------------------
  // What `push` looks at

  /// The components a fresh iterator over `path` yields
  function ComponentsOf(path: Bytes): seq<WindowsComponent> {
    FrontList(AtBeginning, Normalizes(path), path)
  }

  /// The prefixes `has_any_verbatim_prefix` matches, as coded: `Verbatim`,
  /// `UNC` and `Disk`
  predicate RebuildsUnder(current: Bytes) {
    LeadingPrefix(current).Some? && AnyVerbatimKind(LeadingPrefix(current).value.parsed)
  }

  /// The bytes of the leading prefix (what `truncate(prefix_len)` keeps)
  function PrefixBytes(current: Bytes): (p: Bytes)
    ensures StartsWith(current, p)
    ensures LeadingPrefix(current).None? ==> p == []
  {
    if LeadingPrefix(current).Some? then LeadingPrefix(current).value.raw else []
  }

  /// `is_only_disk` of a fresh iterator: a drive prefix and nothing else
  predicate OnlyDisk(current: Bytes) {
    LeadingPrefix(current).Some? && LeadingPrefix(current).value.parsed.Disk? && AfterLeadingPrefix(current) == []
  }

  /// The separator the last rule adds: the buffer is not empty, does not end
  /// with `\`, and is not a bare drive
  predicate NeedsSep(current: Bytes) {
    current != [] && current[|current| - 1] != SEPARATOR && !OnlyDisk(current)
  }

  // ---------------------------------------------------------------------------
  // The rebuild under a prefix

  /// One incoming component applied to the buffer: a root cuts the buffer
  /// back to its first component, `.` is dropped, `..` removes a trailing
  /// name (and is dropped otherwise), anything else is appended
  function BufferStep(buffer: seq<WindowsComponent>, c: WindowsComponent): (r: seq<WindowsComponent>)
    ensures buffer != [] && buffer[0].Prefix? ==> r != [] && r[0] == buffer[0]
    ensures forall x | x in r :: x in buffer || x == c
    ensures c.CurDir? ==> r == buffer
  {
    match c
    case RootDir => (if |buffer| > 1 then buffer[..1] else buffer) + [RootDir]
    case CurDir => buffer
    case ParentDir =>
      if buffer != [] && buffer[|buffer| - 1].Normal? then buffer[..|buffer| - 1] else buffer
    case _ => buffer + [c]
  }

  /// The buffer after every incoming component, in order
  function Rebuilt(buffer: seq<WindowsComponent>, cs: seq<WindowsComponent>): seq<WindowsComponent>
    decreases |cs|
  {
    if cs == [] then buffer else Rebuilt(BufferStep(buffer, cs[0]), cs[1..])
  }

  /// `need_sep` after a component: not after the root nor a drive, after
  /// anything else
  function NeedSepAfter(c: WindowsComponent): bool {
    match c
    case RootDir => false
    case Prefix(p) => !p.parsed.Disk?
    case _ => true
  }

  /// The bytes the rebuild loop writes for `cs`: each component's bytes, a
  /// `\` before every one but a root when the one before asks for it
  function Joined(needSep: bool, cs: seq<WindowsComponent>): Bytes
    decreases |cs|
  {
    if cs == [] then []
    else
      (if needSep && cs[0] != RootDir then [SEPARATOR] else []) + AsBytes(cs[0])
      + Joined(NeedSepAfter(cs[0]), cs[1..])
  }

  // ---------------------------------------------------------------------------
  // push

  /// The buffer `push` leaves
  function Pushed(current: Bytes, path: Bytes): (r: Bytes)
    ensures path == [] ==> r == current
    ensures LeadingPrefix(path).Some? ==> r == path
    ensures path != [] && !RebuildsUnder(current) ==> EndsWith(r, path)
  {
    if path == [] then current
    else if LeadingPrefix(path).Some? then path
    else if RebuildsUnder(current) then Joined(false, Rebuilt(ComponentsOf(current), ComponentsOf(path)))
    else if SepFirst(Normalizes(path), path) then PrefixBytes(current) + path
    else if NeedsSep(current) then current + [SEPARATOR] + path
    else current + path
  }

  /// One step of the front reading
  lemma FrontListStep(state: State, normalize: bool, input: Bytes)
    ensures ParseFront(state, normalize, input).Fail? ==> FrontList(state, normalize, input) == []
    ensures ParseFront(state, normalize, input).Ok? ==>
              var r := ParseFront(state, normalize, input);
              FrontList(state, normalize, input) == [r.value] + FrontList(NextState(r.value), normalize, r.rest)
  {
  }

  /// One component moved from what is left to what was collected
  lemma CollectStep(cs: seq<WindowsComponent>, state: State, normalize: bool, input: Bytes)
    requires ParseFront(state, normalize, input).Ok?
    ensures var r := ParseFront(state, normalize, input);
            (cs + [r.value]) + FrontList(NextState(r.value), normalize, r.rest) == cs + FrontList(state, normalize, input)
  {
    FrontListStep(state, normalize, input);
  }

  /// `collect()`: the components the iterator still yields, front first
  method Collect(it: WindowsComponents) returns (cs: seq<WindowsComponent>)
    modifies it.parser
    ensures cs == FrontList(old(it.parser.state), it.parser.normalize, old(it.parser.input))
  {
    cs := [];
    ghost var whole := FrontList(it.parser.state, it.parser.normalize, it.parser.input);
    while true
      invariant cs + FrontList(it.parser.state, it.parser.normalize, it.parser.input) == whole
      decreases |it.parser.input|
    {
      ghost var state := it.parser.state;
      ghost var input := it.parser.input;
      FrontListStep(state, it.parser.normalize, input);
      var c := it.parser.NextFront();
      if c.None? {
        assert cs + [] == cs;
        return;
      }
      CollectStep(cs, state, it.parser.normalize, input);
      cs := cs + [c.value];
    }
  }

  /// The loop over the incoming components that edits the buffer
  method RebuildWith(start: seq<WindowsComponent>, it: WindowsComponents) returns (buffer: seq<WindowsComponent>)
    modifies it.parser
    ensures buffer == Rebuilt(start, FrontList(old(it.parser.state), it.parser.normalize, old(it.parser.input)))
  {
    buffer := start;
    ghost var whole := Rebuilt(start, FrontList(it.parser.state, it.parser.normalize, it.parser.input));
    while true
      invariant Rebuilt(buffer, FrontList(it.parser.state, it.parser.normalize, it.parser.input)) == whole
      decreases |it.parser.input|
    {
      FrontListStep(it.parser.state, it.parser.normalize, it.parser.input);
      var c := it.parser.NextFront();
      if c.None? {
        return;
      }
      ghost var before := buffer;
      match c.value {
        case RootDir =>
          if |buffer| > 1 {
            buffer := buffer[..1];
          }
          buffer := buffer + [RootDir];
        case CurDir =>
        case ParentDir =>
          if buffer != [] && buffer[|buffer| - 1].Normal? {
            buffer := buffer[..|buffer| - 1];
          }
        case _ =>
          buffer := buffer + [c.value];
      }
      assert buffer == BufferStep(before, c.value);
    }
  }

  /// What the rebuild loop writes for one component: a `\` first when the
  /// component before asks for one and this is not the root, then its bytes
  function Piece(needSep: bool, c: WindowsComponent): Bytes {
    (if needSep && c != RootDir then [SEPARATOR] else []) + AsBytes(c)
  }

  /// One step of `Joined`: the first piece, then the rest
  lemma JoinedStep(needSep: bool, cs: seq<WindowsComponent>)
    requires cs != []
    ensures Joined(needSep, cs) == Piece(needSep, cs[0]) + Joined(NeedSepAfter(cs[0]), cs[1..])
  {
  }

  /// `JoinedStep` at position `i` of a buffer
  lemma JoinedAt(needSep: bool, buffer: seq<WindowsComponent>, i: nat)
    requires i < |buffer|
    ensures Joined(needSep, buffer[i..]) == Piece(needSep, buffer[i]) + Joined(NeedSepAfter(buffer[i]), buffer[i + 1..])
  {
    assert buffer[i..][1..] == buffer[i + 1..];
    JoinedStep(needSep, buffer[i..]);
  }

  /// The body of the rebuild loop: one component written out, and the new
  /// `need_sep`
  method RenderOne(newPath: ByteVec, needSep: bool, c: WindowsComponent) returns (next: bool)
    modifies newPath
    ensures newPath.data == old(newPath.data) + Piece(needSep, c)
    ensures next == NeedSepAfter(c)
  {
    if needSep && c != RootDir {
      newPath.Push(SEPARATOR);
    }
    newPath.ExtendFromSlice(AsBytes(c));
    match c {
      case RootDir => next := false;
      case Prefix(p) => next := !p.parsed.Disk?;
      case _ => next := true;
    }
  }

  /// The loop that writes the rebuilt buffer out as bytes
  method Render(buffer: seq<WindowsComponent>) returns (newPath: ByteVec)
    ensures fresh(newPath) && newPath.data == Joined(false, buffer)
  {
    newPath := new ByteVec([]);
    var needSep := false;
    for i := 0 to |buffer|
      invariant newPath.data + Joined(needSep, buffer[i..]) == Joined(false, buffer)
    {
      ghost var written := newPath.data;
      JoinedAt(needSep, buffer, i);
      ghost var piece := Piece(needSep, buffer[i]);
      ghost var tail := Joined(NeedSepAfter(buffer[i]), buffer[i + 1..]);
      needSep := RenderOne(newPath, needSep, buffer[i]);
      ConcatAssoc(written, piece, tail);
    }
    assert buffer[|buffer|..] == [];
  }

  /// The second rule: the buffer's components, edited by the incoming
  /// ones, written out anew
  method PushRebuild(currentPath: ByteVec, path: Bytes)
    modifies currentPath
    ensures currentPath.data == Joined(false, Rebuilt(ComponentsOf(old(currentPath.data)), ComponentsOf(path)))
  {
    var bytes := RebuiltBytes(currentPath.data, path);
    currentPath.data := bytes;
  }

  /// The components of `current`, edited by those of `path` and written out
  method RebuiltBytes(current: Bytes, path: Bytes) returns (bytes: Bytes)
    ensures bytes == Joined(false, Rebuilt(ComponentsOf(current), ComponentsOf(path)))
  {
    var all := new WindowsComponents(current);
    var buffer := Collect(all);
    var incoming := new WindowsComponents(path);
    buffer := RebuildWith(buffer, incoming);
    var newPath := Render(buffer);
    bytes := newPath.data;
  }

  /// The third rule: the buffer cut back to its prefix, then the path
  method PushRooted(currentPath: ByteVec, path: Bytes)
    modifies currentPath
    ensures currentPath.data == PrefixBytes(old(currentPath.data)) + path
  {
    var current := currentPath.data;
    var cur := new WindowsComponents(current);
    var len := cur.PrefixLen();
    assert cur.parser.input == current && cur.parser.state == AtBeginning;
    PrefixCut(current, len);
    currentPath.Truncate(len);
    assert currentPath.data == PrefixBytes(current);
    currentPath.ExtendFromSlice(path);
  }

  /// Cutting the buffer at the length of its leading prefix keeps that prefix
  lemma PrefixCut(current: Bytes, n: nat)
    requires PrefixFirst(AtBeginning, current) ==> n == |current| - |AfterLeadingPrefix(current)|
    requires !PrefixFirst(AtBeginning, current) ==> n == 0
    ensures n <= |current| && current[..n] == PrefixBytes(current)
  {
    if LeadingPrefix(current).Some? {
      var raw := LeadingPrefix(current).value.raw;
      assert raw + AfterLeadingPrefix(current) == current;
      assert current[..n] == raw;
    }
  }

  /// The last rule: a `\` when needed, then the path
  method PushRelative(currentPath: ByteVec, path: Bytes)
    modifies currentPath
    ensures currentPath.data == (if NeedsSep(old(currentPath.data)) then old(currentPath.data) + [SEPARATOR] else old(currentPath.data)) + path
  {
    var cur := new WindowsComponents(currentPath.data);
    var onlyDisk := cur.IsOnlyDisk();
    StepPrefixOfLeading(currentPath.data);
    var needsSep := currentPath.data != [] && !EndsWith(currentPath.data, [SEPARATOR]) && !onlyDisk;
    if needsSep {
      currentPath.Push(SEPARATOR);
    }
    currentPath.ExtendFromSlice(path);
  }

  /// `push`: an empty path changes nothing; a path with a prefix (absolute
  /// or not) replaces the buffer; under a `Verbatim`, `UNC` or `Disk` prefix
  /// the buffer is rebuilt from components; a rooted path keeps only the
  /// buffer's prefix; otherwise the path is appended, after a `\` if needed
  method Push(currentPath: ByteVec, path: Bytes)
    modifies currentPath
    ensures currentPath.data == Pushed(old(currentPath.data), path)
  {
    if path == [] {
      return;
    }
    var comps := new WindowsComponents(path);
    var curComps := new WindowsComponents(currentPath.data);
    var absolute := comps.IsAbsolute();
    var hasPrefix := comps.HasPrefix();
    if absolute || hasPrefix {
      currentPath.Clear();
      currentPath.ExtendFromSlice(path);
    } else {
      var anyVerbatim := curComps.HasAnyVerbatimPrefix();
      StepPrefixOfLeading(currentPath.data);
      if anyVerbatim {
        PushRebuild(currentPath, path);
      } else {
        var rooted := comps.HasRoot();
        if rooted {
          PushRooted(currentPath, path);
        } else {
          PushRelative(currentPath, path);
        }
      }
    }
  }

  /// The kind `StepPrefix` reads is that of the leading prefix
  lemma StepPrefixOfLeading(s: Bytes)
    ensures LeadingPrefix(s).Some? <==> StepPrefix(s).Ok?
    ensures LeadingPrefix(s).Some? ==> StepPrefix(s).value == LeadingPrefix(s).value.parsed
  {
  }
  // ---------------------------------------------------------------------------
  // What push keeps

  /// The rebuild never removes a leading prefix from the buffer
  lemma {:induction false} RebuiltKeepsHead(buffer: seq<WindowsComponent>, cs: seq<WindowsComponent>)
    requires buffer != [] && buffer[0].Prefix?
    ensures var r := Rebuilt(buffer, cs); r != [] && r[0] == buffer[0]
    decreases |cs|
  {
    if cs != [] {
      RebuiltKeepsHead(BufferStep(buffer, cs[0]), cs[1..]);
    }
  }

  /// The rebuild brings in no component the incoming list does not have:
  /// in particular no `.`, which it drops
  lemma {:induction false} RebuiltDropsCurDir(buffer: seq<WindowsComponent>, cs: seq<WindowsComponent>)
    requires CurDir !in buffer
    ensures CurDir !in Rebuilt(buffer, cs)
    ensures forall x | x in Rebuilt(buffer, cs) :: x in buffer || x in cs
    decreases |cs|
  {
    if cs != [] {
      var next := BufferStep(buffer, cs[0]);
      RebuiltDropsCurDir(next, cs[1..]);
      assert forall x | x in cs[1..] :: x in cs;
    }
  }

  /// Names alone are appended in order
  lemma {:induction false} RebuiltAppendsNames(buffer: seq<WindowsComponent>, cs: seq<WindowsComponent>)
    requires forall i | 0 <= i < |cs| :: cs[i].Normal?
    ensures Rebuilt(buffer, cs) == buffer + cs
    decreases |cs|
  {
    if cs != [] {
      RebuiltAppendsNames(buffer + [cs[0]], cs[1..]);
      assert (buffer + [cs[0]]) + cs[1..] == buffer + cs;
    }
  }

  /// A name followed by `..` cancels out
  lemma RebuiltNameThenParent(buffer: seq<WindowsComponent>, name: Bytes, cs: seq<WindowsComponent>)
    ensures Rebuilt(buffer, [Normal(name), ParentDir] + cs) == Rebuilt(buffer, cs)
  {
    var all := [Normal(name), ParentDir] + cs;
    assert all[1..] == [ParentDir] + cs && all[1..][1..] == cs;
    assert (buffer + [Normal(name)])[..|buffer|] == buffer;
  }

  /// A root drops everything after the buffer's first component
  lemma RebuiltAtRoot(buffer: seq<WindowsComponent>, cs: seq<WindowsComponent>)
    requires buffer != []
    ensures Rebuilt(buffer, [RootDir] + cs) == Rebuilt([buffer[0], RootDir], cs)
  {
    assert ([RootDir] + cs)[1..] == cs;
    assert buffer[..1] == [buffer[0]];
    assert BufferStep(buffer, RootDir) == [buffer[0], RootDir];
  }

  /// The rebuilt buffer starts with the leading prefix, and so do its bytes
  lemma RebuiltStartsWithPrefix(current: Bytes, path: Bytes)
    requires LeadingPrefix(current).Some?
    ensures var b := Rebuilt(ComponentsOf(current), ComponentsOf(path));
            b != [] && b[0] == Prefix(LeadingPrefix(current).value)
    ensures StartsWith(Joined(false, Rebuilt(ComponentsOf(current), ComponentsOf(path))), LeadingPrefix(current).value.raw)
  {
    var p := LeadingPrefix(current).value;
    ComponentsStartWithPrefix(current);
    RebuiltKeepsHead(ComponentsOf(current), ComponentsOf(path));
    var b := Rebuilt(ComponentsOf(current), ComponentsOf(path));
    JoinedStep(false, b);
    assert Piece(false, b[0]) == p.raw;
    StartsWithConcat(p.raw, Joined(NeedSepAfter(b[0]), b[1..]));
  }

  /// The components of a buffer with a prefix start with that prefix
  lemma ComponentsStartWithPrefix(current: Bytes)
    requires LeadingPrefix(current).Some?
    ensures ComponentsOf(current) != [] && ComponentsOf(current)[0] == Prefix(LeadingPrefix(current).value)
  {
    FirstPrefix(AtBeginning, Normalizes(current), current);
    FrontListStep(AtBeginning, Normalizes(current), current);
  }

  /// Whatever the rule, pushing a path without a prefix keeps the buffer's
  /// prefix in front
  lemma PushKeepsPrefix(current: Bytes, path: Bytes)
    requires LeadingPrefix(current).Some? && LeadingPrefix(path).None?
    ensures StartsWith(Pushed(current, path), LeadingPrefix(current).value.raw)
  {
    if path != [] && RebuildsUnder(current) {
      RebuiltStartsWithPrefix(current, path);
    } else if path != [] {
      var raw := LeadingPrefix(current).value.raw;
      assert StartsWith(current, raw) && PrefixBytes(current) == raw;
      AppendedKeepsPrefix(current, raw, Pushed(current, path), path);
    }
  }

  /// What the three rules that write after the prefix leave starts with
  /// the prefix: the prefix and the path, or the buffer and the path with
  /// or without a separator between
  lemma AppendedKeepsPrefix(current: Bytes, raw: Bytes, r: Bytes, path: Bytes)
    requires StartsWith(current, raw)
    requires r == raw + path || r == current + [SEPARATOR] + path || r == current + path
    ensures StartsWith(r, raw)
  {
    if r == raw + path {
      StartsWithConcat(raw, path);
    } else if r == current + [SEPARATOR] + path {
      AppendKeepsStart(current, raw, r, [SEPARATOR] + path);
    } else {
      AppendKeepsStart(current, raw, r, path);
    }
  }

  /// Bytes appended after a buffer keep what the buffer starts with
  lemma AppendKeepsStart(current: Bytes, raw: Bytes, r: Bytes, tail: Bytes)
    requires StartsWith(current, raw) && r == current + tail
    ensures StartsWith(r, raw)
  {
    assert r[..|current|] == current;
    StartsWithTrans(r, current, raw);
  }

  /// A bare drive always takes the rebuild rule, so the last rule's
  /// `is_only_disk` test never fires
  lemma OnlyDiskRebuilds(current: Bytes)
    ensures OnlyDisk(current) ==> RebuildsUnder(current)
  {
  }
  // ---------------------------------------------------------------------------
  // hash

  /// What a hasher is handed: the prefix (hashed by its kind alone), byte
  /// chunks, then one length
  datatype HashWrite = HashPrefix(kind: WindowsPrefix) | Write(chunk: Bytes) | WriteUsize(n: nat)

  /// The hasher `hash` writes into, as the list of calls it receives
  class Hasher {
    var writes: seq<HashWrite>

    constructor ()
      ensures writes == []
    {
      writes := [];
    }

    /// `prefix.hash(h)`
    method HashPrefixOf(p: WindowsPrefix)
      modifies this
      ensures writes == old(writes) + [HashPrefix(p)]
    {
      writes := writes + [HashPrefix(p)];
    }

    method Write(chunk: Bytes)
      modifies this
      ensures writes == old(writes) + [HashWrite.Write(chunk)]
    {
      writes := writes + [HashWrite.Write(chunk)];
    }

    method WriteUsize(n: nat)
      modifies this
      ensures writes == old(writes) + [HashWrite.WriteUsize(n)]
    {
      writes := writes + [HashWrite.WriteUsize(n)];
    }
  }

  function TotalLen(chunks: seq<Bytes>): nat {
    if chunks == [] then 0 else |chunks[0]| + TotalLen(chunks[1..])
  }

  lemma {:induction false} TotalLenAppend(a: seq<Bytes>, b: seq<Bytes>)
    ensures TotalLen(a + b) == TotalLen(a) + TotalLen(b)
    decreases |a|
  {
    if a == [] {
      assert a + b == b;
    } else {
      assert (a + b)[1..] == a[1..] + b;
      TotalLenAppend(a[1..], b);
    }
  }

  function WritesOf(chunks: seq<Bytes>): (w: seq<HashWrite>)
    ensures |w| == |chunks|
  {
    if chunks == [] then [] else [HashWrite.Write(chunks[0])] + WritesOf(chunks[1..])
  }

  lemma {:induction false} WritesOfAppend(a: seq<Bytes>, b: seq<Bytes>)
    ensures WritesOf(a + b) == WritesOf(a) + WritesOf(b)
    decreases |a|
  {
    if a == [] {
      assert a + b == b;
    } else {
      assert (a + b)[1..] == a[1..] + b;
      WritesOfAppend(a[1..], b);
    }
  }

  /// The separator mode of `hash`: `\` alone under a verbatim prefix, `\`
  /// or `/` otherwise
  predicate HashNormalizes(path: Bytes) {
    !(LeadingPrefix(path).Some? && IsVerbatim(LeadingPrefix(path).value.parsed))
  }

  /// How far `hash` moves the chunk start past a separator when it
  /// normalises: over a `.` followed by the end or another separator
  function DotSkip(normalize: bool, tail: Bytes): (n: nat)
    ensures n <= |tail|
  {
    if normalize && (tail == [DOT] || (|tail| >= 2 && tail[0] == DOT && IsSepIn(true, tail[1]))) then 1 else 0
  }

  /// The chunks the loop of `hash` writes from index `i` on, the current
  /// chunk starting at `start`, reading the bytes after the prefix
  function Scan(bytes: Bytes, normalize: bool, i: nat, start: nat): seq<Bytes>
    requires i <= |bytes| && start <= |bytes|
    decreases |bytes| - i
  {
    if i == |bytes| then
      if start < |bytes| then [bytes[start..]] else []
    else if IsSepIn(normalize, bytes[i]) then
      (if i > start then [bytes[start..i]] else [])
      + Scan(bytes, normalize, i + 1, i + 1 + DotSkip(normalize, bytes[i + 1..]))
    else Scan(bytes, normalize, i + 1, start)
  }

  /// The same loop as written: it runs over the indices of the bytes after
  /// the prefix but tests the byte at that index of the whole path
  function ScanAsWritten(path: Bytes, off: nat, normalize: bool, i: nat, start: nat): seq<Bytes>
    requires off <= |path| && i <= |path| - off && start <= |path| - off
    decreases |path| - off - i
  {
    var bytes := path[off..];
    if i == |bytes| then
      if start < |bytes| then [bytes[start..]] else []
    else if IsSepIn(normalize, path[i]) then
      (if i > start then [bytes[start..i]] else [])
      + ScanAsWritten(path, off, normalize, i + 1, i + 1 + DotSkip(normalize, bytes[i + 1..]))
    else ScanAsWritten(path, off, normalize, i + 1, start)
  }

  /// Without a prefix both readings test the same bytes
  lemma {:induction false} AsWrittenWithoutPrefix(path: Bytes, normalize: bool, i: nat, start: nat)
    requires i <= |path| && start <= |path|
    ensures ScanAsWritten(path, 0, normalize, i, start) == Scan(path, normalize, i, start)
    decreases |path| - i
  {
    assert path[0..] == path;
    if i < |path| {
      if IsSepIn(normalize, path[i]) {
        AsWrittenWithoutPrefix(path, normalize, i + 1, i + 1 + DotSkip(normalize, path[i + 1..]));
      } else {
        AsWrittenWithoutPrefix(path, normalize, i + 1, start);
      }
    }
  }

  /// The segments `hash` writes: the non-empty ones, and when normalising
  /// no `.` except where `first` lets a leading one through
  function KeptIn(normalize: bool, segs: seq<Bytes>, first: bool): (r: seq<Bytes>)
    ensures |r| <= |segs|
  {
    if segs == [] then []
    else
      (if segs[0] != [] && (first || !(normalize && segs[0] == CURRENT_DIR)) then [segs[0]] else [])
      + KeptIn(normalize, segs[1..], false)
  }

  /// Letting a leading `.` through matters only when there is one
  lemma KeptFirstIrrelevant(normalize: bool, segs: seq<Bytes>)
    requires segs == [] || !(normalize && segs[0] == CURRENT_DIR)
    ensures KeptIn(normalize, segs, true) == KeptIn(normalize, segs, false)
  {
  }

  /// An empty first segment is never written
  lemma KeptEmptyFirst(normalize: bool, rest: seq<Bytes>, first: bool)
    ensures KeptIn(normalize, [[]] + rest, first) == KeptIn(normalize, rest, false)
  {
    assert ([[]] + rest)[1..] == rest;
  }

  /// The loop passes over the bytes of a name without writing
  lemma {:induction false} ScanSkipsName(bytes: Bytes, normalize: bool, i: nat, start: nat, m: nat)
    requires i <= m <= |bytes| && start <= |bytes|
    requires forall k | i <= k < m :: !IsSepIn(normalize, bytes[k])
    ensures Scan(bytes, normalize, i, start) == Scan(bytes, normalize, m, start)
    decreases m - i
  {
    if i < m {
      ScanSkipsName(bytes, normalize, i + 1, start, m);
    }
  }

  /// A tail that is empty or starts with a separator has an empty first
  /// segment
  lemma SepOrEndFirst(normalize: bool, u: Bytes)
    requires u == [] || IsSepIn(normalize, u[0])
    ensures SegmentsIn(normalize, u)[0] == []
  {
    SegmentsStep(normalize, u);
  }

  /// The `.` `hash` skips is a whole segment, dropped either way
  lemma SkippedDot(normalize: bool, t: Bytes)
    requires DotSkip(normalize, t) == 1
    ensures KeptIn(normalize, SegmentsIn(normalize, t), false) == KeptIn(normalize, SegmentsIn(normalize, t[1..]), false)
  {
    SegmentsStep(normalize, t);
    assert SegLenIn(normalize, t) == 1;
    if |t| > 1 {
      SegmentsAtSep(normalize, t[1..]);
      assert t[1..][1..] == t[2..];
      KeptEmptyFirst(normalize, SegmentsIn(normalize, t[2..]), false);
    }
  }

  /// A segment after a separator that `hash` does not skip is not a `.` it
  /// would drop
  lemma UnskippedNotDot(normalize: bool, t: Bytes)
    requires DotSkip(normalize, t) == 0
    ensures KeptIn(normalize, SegmentsIn(normalize, t), true) == KeptIn(normalize, SegmentsIn(normalize, t), false)
  {
    SegmentsStep(normalize, t);
    if t != [] {
      WindowsIncrementalProperties.DotSegment(normalize, t);
    }
    KeptFirstIrrelevant(normalize, SegmentsIn(normalize, t));
  }

  /// From a chunk start `q`, the loop writes the kept segments of the rest
  lemma {:induction false} ScanKeeps(bytes: Bytes, normalize: bool, q: nat)
    requires q <= |bytes|
    ensures Scan(bytes, normalize, q, q) == KeptIn(normalize, SegmentsIn(normalize, bytes[q..]), true)
    decreases |bytes| - q, 1
  {
    if q == |bytes| {
      assert bytes[q..] == [];
      SegmentsStep(normalize, []);
    } else if IsSepIn(normalize, bytes[q]) {
      var t := bytes[q + 1..];
      assert bytes[q..][1..] == t;
      SegmentsAtSep(normalize, bytes[q..]);
      KeptEmptyFirst(normalize, SegmentsIn(normalize, t), true);
      if DotSkip(normalize, t) == 1 {
        assert bytes[q + 1] == DOT;
        assert Scan(bytes, normalize, q + 1, q + 2) == Scan(bytes, normalize, q + 2, q + 2);
        ScanKeeps(bytes, normalize, q + 2);
        assert bytes[q + 2..] == t[1..];
        SepOrEndFirst(normalize, t[1..]);
        KeptFirstIrrelevant(normalize, SegmentsIn(normalize, t[1..]));
        SkippedDot(normalize, t);
      } else {
        ScanKeeps(bytes, normalize, q + 1);
        UnskippedNotDot(normalize, t);
      }
    } else {
      ScanKeepsName(bytes, normalize, q);
    }
  }

  /// The segments of the bytes from a name at `q` to the separator at `m`
  /// that ends it
  lemma SegmentsOfNameAt(bytes: Bytes, normalize: bool, q: nat, m: nat)
    requires q < |bytes| && m == q + SegLenIn(normalize, bytes[q..]) && m < |bytes|
    ensures SegmentsIn(normalize, bytes[q..]) == [bytes[q..m]] + SegmentsIn(normalize, bytes[m + 1..])
  {
    var t := bytes[q..];
    var n := m - q;
    assert n < |t| && n == SegLenIn(normalize, t);
    SegmentsStep(normalize, t);
    assert SegmentsIn(normalize, t) == [t[..n]] + SegmentsIn(normalize, t[n + 1..]);
    assert t[..n] == bytes[q..m];
    assert t[n + 1..] == bytes[m + 1..];
  }

  /// At the separator ending a name, the loop writes the name and carries
  /// on as from a chunk start there
  lemma ScanWritesName(bytes: Bytes, normalize: bool, q: nat, m: nat)
    requires q < m < |bytes| && IsSepIn(normalize, bytes[m])
    ensures Scan(bytes, normalize, m, q) == [bytes[q..m]] + Scan(bytes, normalize, m, m)
  {
  }

  /// The case of `ScanKeeps` where a name starts at `q`
  lemma {:induction false} ScanKeepsName(bytes: Bytes, normalize: bool, q: nat)
    requires q < |bytes| && !IsSepIn(normalize, bytes[q])
    ensures Scan(bytes, normalize, q, q) == KeptIn(normalize, SegmentsIn(normalize, bytes[q..]), true)
    decreases |bytes| - q, 0
  {
    var t := bytes[q..];
    var m := q + SegLenIn(normalize, t);
    assert forall k | q <= k < m :: bytes[k] == t[k - q];
    ScanSkipsName(bytes, normalize, q, q, m);
    if m == |bytes| {
      SegmentsStep(normalize, t);
      assert Scan(bytes, normalize, m, q) == [t];
    } else {
      SegmentsOfNameAt(bytes, normalize, q, m);
      var rest := SegmentsIn(normalize, bytes[m + 1..]);
      assert KeptIn(normalize, [bytes[q..m]] + rest, true) == [bytes[q..m]] + KeptIn(normalize, rest, false) by {
        assert ([bytes[q..m]] + rest)[1..] == rest;
      }
      ScanWritesName(bytes, normalize, q, m);
      ScanKeeps(bytes, normalize, m);
      assert bytes[m..][1..] == bytes[m + 1..];
      SegmentsAtSep(normalize, bytes[m..]);
      KeptEmptyFirst(normalize, rest, true);
    }
  }

  /// The chunks `hash` writes for the bytes after the prefix
  function HashChunks(normalize: bool, bytes: Bytes): (chunks: seq<Bytes>)
    ensures chunks == KeptIn(normalize, SegmentsIn(normalize, bytes), true)
  {
    ScanKeeps(bytes, normalize, 0);
    assert bytes[0..] == bytes;
    Scan(bytes, normalize, 0, 0)
  }

  /// What `hash` writes for the prefix: its kind, when there is one
  function PrefixWrites(path: Bytes): seq<HashWrite> {
    if LeadingPrefix(path).Some? then [HashPrefix(LeadingPrefix(path).value.parsed)] else []
  }

  /// Everything `hash` hands the hasher: the prefix, each chunk, then the
  /// number of bytes in the chunks
  function HashWrites(path: Bytes): seq<HashWrite> {
    var chunks := Scan(AfterLeadingPrefix(path), HashNormalizes(path), 0, 0);
    PrefixWrites(path) + (WritesOf(chunks) + [WriteUsize(TotalLen(chunks))])
  }

  /// The same, with the loop as written
  function HashWritesAsWritten(path: Bytes): seq<HashWrite> {
    var chunks := ScanAsWritten(path, |PrefixBytes(path)|, HashNormalizes(path), 0, 0);
    PrefixWrites(path) + (WritesOf(chunks) + [WriteUsize(TotalLen(chunks))])
  }

  lemma ScanAtSeparator(bytes: Bytes, normalize: bool, i: nat, start: nat)
    requires i < |bytes| && start <= |bytes| && IsSepIn(normalize, bytes[i])
    ensures Scan(bytes, normalize, i, start)
         == (if i > start then [bytes[start..i]] else [])
            + Scan(bytes, normalize, i + 1, i + 1 + DotSkip(normalize, bytes[i + 1..]))
  {
  }

  lemma ScanAtName(bytes: Bytes, normalize: bool, i: nat, start: nat)
    requires i < |bytes| && start <= |bytes| && !IsSepIn(normalize, bytes[i])
    ensures Scan(bytes, normalize, i, start) == Scan(bytes, normalize, i + 1, start)
  {
  }

  lemma RegroupWritten(written: seq<Bytes>, chunk: seq<Bytes>, rest: seq<Bytes>, whole: seq<Bytes>)
    requires written + (chunk + rest) == whole
    ensures (written + chunk) + rest == whole
  {
  }

  /// The loop of `hash` over the bytes after the prefix, testing each of
  /// those bytes
  method HashBody(bytes: Bytes, verbatim: bool, h: Hasher)
    modifies h
    ensures var chunks := Scan(bytes, !verbatim, 0, 0);
            h.writes == old(h.writes) + (WritesOf(chunks) + [WriteUsize(TotalLen(chunks))])
  {
    var componentStart: nat := 0;
    var bytesHashed: nat := 0;
    ghost var written: seq<Bytes> := [];
    for i := 0 to |bytes|
      invariant componentStart <= |bytes|
      invariant written + Scan(bytes, !verbatim, i, componentStart) == Scan(bytes, !verbatim, 0, 0)
      invariant h.writes == old(h.writes) + WritesOf(written)
      invariant bytesHashed == TotalLen(written)
    {
      var isSep := if verbatim then bytes[i] == SEPARATOR
                   else bytes[i] == SEPARATOR || bytes[i] == ALT_SEPARATOR;
      assert isSep == IsSepIn(!verbatim, bytes[i]);
      if isSep {
        componentStart, bytesHashed, written :=
          HashAtSeparator(bytes, verbatim, i, componentStart, bytesHashed, h, written, old(h.writes));
      } else {
        ScanAtName(bytes, !verbatim, i, componentStart);
      }
    }
    if componentStart < |bytes| {
      var toHash := bytes[componentStart..];
      h.Write(toHash);
      bytesHashed := bytesHashed + |toHash|;
      WritesOfAppend(written, [toHash]);
      TotalLenAppend(written, [toHash]);
      written := written + [toHash];
    }
    assert written == Scan(bytes, !verbatim, 0, 0);
    h.WriteUsize(bytesHashed);
  }

  /// One separator in the loop of `hash`: the chunk before it, if any, is
  /// written, and the next chunk starts past it and the `.`s it skips
  method HashAtSeparator(bytes: Bytes, verbatim: bool, i: nat, componentStart: nat, bytesHashed: nat, h: Hasher,
                         ghost written: seq<Bytes>, ghost base: seq<HashWrite>)
    returns (start: nat, hashed: nat, ghost written': seq<Bytes>)
    requires i < |bytes| && componentStart <= |bytes| && IsSepIn(!verbatim, bytes[i])
    requires written + Scan(bytes, !verbatim, i, componentStart) == Scan(bytes, !verbatim, 0, 0)
    requires h.writes == base + WritesOf(written) && bytesHashed == TotalLen(written)
    modifies h
    ensures start <= |bytes|
    ensures written' + Scan(bytes, !verbatim, i + 1, start) == Scan(bytes, !verbatim, 0, 0)
    ensures h.writes == base + WritesOf(written') && hashed == TotalLen(written')
  {
    ghost var next := i + 1 + DotSkip(!verbatim, bytes[i + 1..]);
    ghost var chunk := if i > componentStart then [bytes[componentStart..i]] else [];
    ScanAtSeparator(bytes, !verbatim, i, componentStart);
    RegroupWritten(written, chunk, Scan(bytes, !verbatim, i + 1, next), Scan(bytes, !verbatim, 0, 0));
    hashed := bytesHashed;
    if i > componentStart {
      var toHash := bytes[componentStart..i];
      h.Write(toHash);
      hashed := hashed + |toHash|;
      WritesOfAppend(written, [toHash]);
      TotalLenAppend(written, [toHash]);
    } else {
      assert written + chunk == written;
    }
    written' := written + chunk;
    start := i + 1;
    var tail := bytes[start..];
    if !verbatim {
      start := start + DotSkip(true, tail);
    }
  }

  /// The start of `hash`: the prefix is hashed, and its length and
  /// whether it is verbatim are read
  method HashPrefixPart(path: Bytes, h: Hasher) returns (prefixLen: nat, verbatim: bool)
    modifies h
    ensures h.writes == old(h.writes) + PrefixWrites(path)
    ensures prefixLen <= |path| && path[prefixLen..] == AfterLeadingPrefix(path)
    ensures verbatim == !HashNormalizes(path)
  {
    var comps := new WindowsComponents(path);
    var prefix := comps.Prefix();
    assert comps.parser.input == path && comps.parser.state == AtBeginning;
    assert prefix == LeadingPrefix(path);
    match prefix {
      case Some(p) =>
        h.HashPrefixOf(p.parsed);
        prefixLen, verbatim := |p.raw|, IsVerbatim(p.parsed);
        DropFront(p.raw, AfterLeadingPrefix(path));
      case None =>
        prefixLen, verbatim := 0, false;
    }
  }

  /// `hash`: the prefix by its kind, then the chunks of the bytes after it
  /// between separators (`\` alone under a verbatim prefix), a `.` after a
  /// separator skipped when not verbatim, then the count of bytes written
  method Hash(path: Bytes, h: Hasher)
    modifies h
    ensures h.writes == old(h.writes) + HashWrites(path)
  {
    ghost var start := h.writes;
    var prefixLen, verbatim := HashPrefixPart(path, h);
    var bytes := path[prefixLen..];
    ghost var chunks := Scan(bytes, !verbatim, 0, 0);
    ghost var tail := WritesOf(chunks) + [WriteUsize(TotalLen(chunks))];
    HashBody(bytes, verbatim, h);
    ConcatAssoc(start, PrefixWrites(path), tail);
    assert HashWrites(path) == PrefixWrites(path) + tail;
  }
  // ---------------------------------------------------------------------------
  // hash against eq

  /// The bytes of the components that are neither a prefix nor the root
  function BodyImages(cs: seq<WindowsComponent>): seq<Bytes> {
    if cs == [] then []
    else (if cs[0].RootDir? || cs[0].Prefix? then [] else [AsBytes(cs[0])]) + BodyImages(cs[1..])
  }

  lemma {:induction false} BodyImagesAppend(a: seq<WindowsComponent>, b: seq<WindowsComponent>)
    ensures BodyImages(a + b) == BodyImages(a) + BodyImages(b)
    decreases |a|
  {
    if a == [] {
      assert a + b == b;
    } else {
      assert (a + b)[1..] == a[1..] + b;
      BodyImagesAppend(a[1..], b);
    }
  }

  /// The names of the segments are exactly the segments `hash` writes past
  /// the first
  lemma {:induction false} BodyImagesOfNames(normalize: bool, segs: seq<Bytes>)
    ensures BodyImages(NamesOf(normalize, segs)) == KeptIn(normalize, segs, false)
    decreases |segs|
  {
    if segs != [] {
      var head: seq<WindowsComponent> := if Kept(normalize, segs[0]) then [ClassifyIn(normalize, segs[0])] else [];
      assert NamesOf(normalize, segs) == head + NamesOf(normalize, segs[1..]);
      BodyImagesAppend(head, NamesOf(normalize, segs[1..]));
      BodyImagesOfNames(normalize, segs[1..]);
      if head != [] {
        assert AsBytes(ClassifyIn(normalize, segs[0])) == segs[0];
        assert BodyImages(head) == [segs[0]];
      }
    }
  }

  /// Two steps that open the body reading with a given component
  lemma BodyImagesCons(c: WindowsComponent, cs: seq<WindowsComponent>)
    ensures BodyImages([c] + cs) == (if c.RootDir? || c.Prefix? then [] else [AsBytes(c)]) + BodyImages(cs)
  {
    assert ([c] + cs)[1..] == cs;
  }

  /// `ChunksAreBodies` for a path that starts with a separator
  lemma ChunksAtRoot(normalize: bool, s: Bytes)
    requires s != [] && IsSepIn(normalize, s[0])
    ensures HashChunks(normalize, s) == BodyImages(AfterPrefixSpec(normalize, s))
  {
    SegmentsAtSep(normalize, s);
    KeptEmptyFirst(normalize, SegmentsIn(normalize, s[1..]), true);
    BodyImagesCons(RootDir, Names(normalize, s[1..]));
    BodyImagesOfNames(normalize, SegmentsIn(normalize, s[1..]));
  }

  /// `ChunksAreBodies` for a path that is a lone `.`
  lemma ChunksAtLoneDot(normalize: bool, s: Bytes)
    requires normalize && s == CURRENT_DIR
    ensures HashChunks(normalize, s) == BodyImages(AfterPrefixSpec(normalize, s))
  {
    SegmentsStep(normalize, s);
    assert SegmentsIn(normalize, s) == [s];
    assert KeptIn(normalize, [s], true) == [s];
    NamesOfEmpty(normalize);
    assert s[1..] == [];
    assert AfterPrefixSpec(normalize, s) == [CurDir];
    BodyImagesCons(CurDir, []);
  }

  /// `ChunksAreBodies` for a path that starts with `.` and a separator
  lemma ChunksAtDot(normalize: bool, s: Bytes)
    requires normalize && |s| > 1 && s[0] == DOT && IsSepIn(true, s[1])
    ensures HashChunks(normalize, s) == BodyImages(AfterPrefixSpec(normalize, s))
  {
    SegmentsStep(normalize, s);
    BodyImagesCons(CurDir, Names(normalize, s[1..]));
    assert s[1..][1..] == s[2..];
    NamesAtSep(normalize, s[1..]);
    BodyImagesOfNames(normalize, SegmentsIn(normalize, s[2..]));
    var rest := SegmentsIn(normalize, s[2..]);
    assert s[..1] == CURRENT_DIR;
    assert SegmentsIn(normalize, s) == [CURRENT_DIR] + rest;
    assert ([CURRENT_DIR] + rest)[1..] == rest;
  }

  /// `ChunksAreBodies` for a path that starts with a name
  lemma ChunksAtName(normalize: bool, s: Bytes)
    requires s != [] && !IsSepIn(normalize, s[0]) && !(normalize && CurDirIn(true, s).Ok?)
    ensures HashChunks(normalize, s) == BodyImages(AfterPrefixSpec(normalize, s))
  {
    SegmentsStep(normalize, s);
    WindowsIncrementalProperties.DotSegment(normalize, s);
    KeptFirstIrrelevant(normalize, SegmentsIn(normalize, s));
    BodyImagesOfNames(normalize, SegmentsIn(normalize, s));
  }

  /// The chunks `hash` writes after the prefix are the bytes of the
  /// components that follow it, the root aside
  lemma ChunksAreBodies(normalize: bool, s: Bytes)
    ensures HashChunks(normalize, s) == BodyImages(AfterPrefixSpec(normalize, s))
  {
    if s == [] {
      SegmentsStep(normalize, s);
    } else if IsSepIn(normalize, s[0]) {
      ChunksAtRoot(normalize, s);
    } else if normalize && CurDirIn(true, s).Ok? {
      if |s| == 1 {
        ChunksAtLoneDot(normalize, s);
      } else {
        ChunksAtDot(normalize, s);
      }
    } else {
      ChunksAtName(normalize, s);
    }
  }

  /// What `hash` writes: the prefix, then the bytes of what follows it
  lemma HashWritesOfBody(path: Bytes)
    ensures var body := BodyImages(AfterPrefixSpec(HashNormalizes(path), AfterLeadingPrefix(path)));
            HashWrites(path) == PrefixWrites(path) + (WritesOf(body) + [WriteUsize(TotalLen(body))])
  {
    var n := HashNormalizes(path);
    var rest := AfterLeadingPrefix(path);
    assert Scan(rest, n, 0, 0) == HashChunks(n, rest);
    ChunksAreBodies(n, rest);
  }

  /// The whole reading of a path: its prefix first, if any, then the body
  lemma SpecFrontBody(normalize: bool, path: Bytes)
    ensures var cs := SpecFront(normalize, path);
            && BodyImages(cs) == BodyImages(AfterPrefixSpec(normalize, AfterLeadingPrefix(path)))
            && PrefixWrites(path) == (if cs != [] && cs[0].Prefix? then [HashPrefix(cs[0].prefix.parsed)] else [])
  {
    var rest := AfterLeadingPrefix(path);
    AfterPrefixKinds(normalize, rest);
    match StepPrefixComponent(path)
    case Ok(_, pc) =>
      BodyImagesCons(Prefix(pc), AfterPrefixSpec(normalize, rest));
    case Fail =>
  }

  /// What `hash` writes, in terms of the components `eq` compares, when
  /// its separator mode is the iterator's
  lemma HashWritesOfComponents(path: Bytes)
    requires HashNormalizes(path) == Normalizes(path)
    ensures var cs := SpecFront(Normalizes(path), path);
            var body := BodyImages(cs);
            HashWrites(path)
            == (if cs != [] && cs[0].Prefix? then [HashPrefix(cs[0].prefix.parsed)] else [])
               + (WritesOf(body) + [WriteUsize(TotalLen(body))])
  {
    HashWritesOfBody(path);
    SpecFrontBody(Normalizes(path), path);
  }

  /// Component lists equal under `eq` have the same prefix kind and the same
  /// body bytes
  lemma {:induction false} SeqEqBodies(a: seq<WindowsComponent>, b: seq<WindowsComponent>)
    requires SeqEq(a, b)
    ensures BodyImages(a) == BodyImages(b)
    ensures a != [] ==> (a[0].Prefix? <==> b[0].Prefix?)
    ensures a != [] && a[0].Prefix? ==> a[0].prefix.parsed == b[0].prefix.parsed
    decreases |a|
  {
    if a != [] {
      assert ComponentEq(a[0], b[0]);
      assert SeqEq(a[1..], b[1..]) by {
        assert forall i | 0 <= i < |a| - 1 :: a[1..][i] == a[i + 1] && b[1..][i] == b[i + 1];
      }
      SeqEqBodies(a[1..], b[1..]);
    }
  }

  /// Paths equal under `eq` hash alike, provided each path's hash splits at
  /// the separators its iterator does
  lemma HashRespectsComponents(p: Bytes, q: Bytes)
    requires HashNormalizes(p) == Normalizes(p) && HashNormalizes(q) == Normalizes(q)
    requires SeqEq(SpecFront(Normalizes(p), p), SpecFront(Normalizes(q), q))
    ensures HashWrites(p) == HashWrites(q)
  {
    HashWritesOfComponents(p);
    HashWritesOfComponents(q);
    SeqEqBodies(SpecFront(Normalizes(p), p), SpecFront(Normalizes(q), q));
  }

  /// Without a prefix, the loop as written reads what it should
  lemma HashAsWrittenWithoutPrefix(path: Bytes)
    requires LeadingPrefix(path).None?
    ensures HashWritesAsWritten(path) == HashWrites(path)
  {
    AsWrittenWithoutPrefix(path, HashNormalizes(path), 0, 0);
  }

  /// `C:\ab\cd` starts with the drive `C:`, and the bytes after it are
  /// hashed with `\` and `/` as separators
  lemma DrivePath(s: Bytes)
    requires s == [67, COLON, BACKSLASH, 97, 98, BACKSLASH, 99, 100]
    ensures AfterLeadingPrefix(s) == s[2..] && |PrefixBytes(s)| == 2 && HashNormalizes(s)
    ensures PrefixWrites(s) == [HashPrefix(Disk(67))]
  {
    DiskPrefixStep(s, 67);
  }

  /// `prefix()` reads `C:` in `C:\ab\cd` with `next_front` as written too:
  /// the skip after the drive consumes the `\`, so the prefix length
  /// `hash` uses is 2 either way
  lemma DrivePeekAsWritten(s: Bytes)
    requires s == [67, COLON, BACKSLASH, 97, 98, BACKSLASH, 99, 100]
    ensures Normalizes(s)
    ensures var r := ParseFrontAsWritten(AtBeginning, true, s);
            r.Ok? && r.rest == s[3..] && r.value == Prefix(PrefixComponent(s[..2], Disk(67)))
  {
    assert s[..|VERBATIM_START|] != VERBATIM_START by {
      assert s[..|VERBATIM_START|][0] == 67 != VERBATIM_START[0];
    }
    DiskPrefixStep(s, 67);
    var after := s[2..];
    assert after[1..] == s[3..] && after[1] == 97;
    assert SkipLenAsWritten(true, after[1..], NUL) == 0;
    assert SkipLenAsWritten(true, after, NUL) == 1;
  }

  /// As written, the loop over `\ab\cd` tests `C`, `:`, `\`, `a`, `b`, `\`
  /// of the whole path: it writes `\a` and `\c`, neither a component, and
  /// drops `d`
  lemma DriveScanAsWritten(s: Bytes)
    requires s == [67, COLON, BACKSLASH, 97, 98, BACKSLASH, 99, 100]
    ensures ScanAsWritten(s, 2, true, 0, 0) == [[BACKSLASH, 97], [BACKSLASH, 99]]
  {
    var bytes := s[2..];
    assert bytes == [BACKSLASH, 97, 98, BACKSLASH, 99, 100];
    assert bytes[6..] == [] && DotSkip(true, bytes[6..]) == 0;
    assert bytes[3..] == [BACKSLASH, 99, 100] && DotSkip(true, bytes[3..]) == 0;
    assert bytes[3..5] == [BACKSLASH, 99] && bytes[0..2] == [BACKSLASH, 97];
    assert ScanAsWritten(s, 2, true, 6, 6) == [];
    assert ScanAsWritten(s, 2, true, 5, 3) == [[BACKSLASH, 99]];
    assert ScanAsWritten(s, 2, true, 3, 3) == [[BACKSLASH, 99]];
    assert ScanAsWritten(s, 2, true, 2, 0) == [[BACKSLASH, 97], [BACKSLASH, 99]];
  }

  /// The loop over the bytes `\ab\cd` themselves writes `ab` and `cd`
  lemma DriveScan(bytes: Bytes)
    requires bytes == [BACKSLASH, 97, 98, BACKSLASH, 99, 100]
    ensures Scan(bytes, true, 0, 0) == [[97, 98], [99, 100]]
  {
    assert bytes[4..] == [99, 100] && DotSkip(true, bytes[4..]) == 0;
    assert bytes[1..] == [97, 98, BACKSLASH, 99, 100] && DotSkip(true, bytes[1..]) == 0;
    assert bytes[1..3] == [97, 98];
    assert Scan(bytes, true, 6, 4) == [[99, 100]];
    assert Scan(bytes, true, 4, 4) == [[99, 100]];
    assert Scan(bytes, true, 3, 1) == [[97, 98], [99, 100]];
    assert Scan(bytes, true, 1, 1) == [[97, 98], [99, 100]];
  }

  /// `C:\ab\cd`: as written, `hash` writes the chunks `\a` and `\c`, which
  /// are no components, where the bytes after the drive split into `ab`
  /// and `cd`
  lemma DriveHashAsWritten(s: Bytes)
    requires s == [67, COLON, BACKSLASH, 97, 98, BACKSLASH, 99, 100]
    ensures HashWritesAsWritten(s) == [HashPrefix(Disk(67)), Write([BACKSLASH, 97]), Write([BACKSLASH, 99]), WriteUsize(4)]
    ensures HashWrites(s) == [HashPrefix(Disk(67)), Write([97, 98]), Write([99, 100]), WriteUsize(4)]
  {
    DriveHashShifted(s);
    DriveHashTwoChunks(s);
  }

  lemma DriveHashShifted(s: Bytes)
    requires s == [67, COLON, BACKSLASH, 97, 98, BACKSLASH, 99, 100]
    ensures HashWritesAsWritten(s) == [HashPrefix(Disk(67)), Write([BACKSLASH, 97]), Write([BACKSLASH, 99]), WriteUsize(4)]
  {
    DrivePath(s);
    DriveScanAsWritten(s);
    ChunkWrites([[BACKSLASH, 97], [BACKSLASH, 99]]);
  }

  lemma DriveHashTwoChunks(s: Bytes)
    requires s == [67, COLON, BACKSLASH, 97, 98, BACKSLASH, 99, 100]
    ensures HashWrites(s) == [HashPrefix(Disk(67)), Write([97, 98]), Write([99, 100]), WriteUsize(4)]
  {
    DrivePath(s);
    var bytes := AfterLeadingPrefix(s);
    assert bytes == [BACKSLASH, 97, 98, BACKSLASH, 99, 100];
    DriveScan(bytes);
    var chunks := Scan(bytes, HashNormalizes(s), 0, 0);
    assert chunks == [[97, 98], [99, 100]];
    ChunkWrites(chunks);
    assert HashWrites(s) == PrefixWrites(s) + (WritesOf(chunks) + [WriteUsize(TotalLen(chunks))]);
  }

  /// The writes and the total length of one or two chunks
  lemma ChunkWrites(chunks: seq<Bytes>)
    requires 1 <= |chunks| <= 2
    ensures |chunks| == 1 ==> WritesOf(chunks) == [Write(chunks[0])] && TotalLen(chunks) == |chunks[0]|
    ensures |chunks| == 2 ==>
              WritesOf(chunks) == [Write(chunks[0]), Write(chunks[1])]
              && TotalLen(chunks) == |chunks[0]| + |chunks[1]|
  {
    var r := chunks[1..];
    assert WritesOf(r) == (if r == [] then [] else [Write(r[0])] + WritesOf(r[1..]));
    if r != [] {
      assert r[1..] == [];
    }
  }

}
