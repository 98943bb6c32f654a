/// What the whole-path prefix grammar reads: exactly the well-formed
/// prefixes, each from its canonical text with either separator, and the
/// effect of the `drive_letter` guard in `prefix_verbatim`.
module WindowsPrefixProperties {
  import opened ByteSeq
  import opened Combinators
  import opened WindowsComponentModel
  import opened WindowsGrammar

  /// The prefixes the whole-path grammar can produce: non-empty fields
  /// without disallowed bytes, alphabetic drives, a verbatim name other than
  /// `UNC`, and a UNC server other than `.` (which would read as a device)
  predicate WellFormed(p: WindowsPrefix) {
    match p
    case Verbatim(x) => x != [] && FieldOk(x) && x != UNC_TAG
    case VerbatimUNC(x, y) => x != [] && y != [] && FieldOk(x) && FieldOk(y)
    case VerbatimDisk(d) => IsAlphabetic(d)
    case DeviceNS(x) => x != [] && FieldOk(x)
    case UNC(x, y) => x != [] && y != [] && FieldOk(x) && FieldOk(y) && x != CURRENT_DIR
    case Disk(d) => IsAlphabetic(d)
  }

  /// A byte with `/` written as `\`
  function CanonicalSep(b: byte): byte {
    if b == SLASH then BACKSLASH else b
  }

  /// The text with every `/` written as `\`
  function WithBackslashes(s: Bytes): (r: Bytes)
    ensures |r| == |s|
  {
    if s == [] then [] else [CanonicalSep(s[0])] + WithBackslashes(s[1..])
  }

  lemma {:induction false} WithBackslashesAt(s: Bytes, k: nat)
    requires k < |s|
    ensures WithBackslashes(s)[k] == CanonicalSep(s[k])
    decreases k
  {
    if k > 0 {
      WithBackslashesAt(s[1..], k - 1);
    }
  }

  lemma {:induction false} WithBackslashesConcat(a: Bytes, b: Bytes)
    ensures WithBackslashes(a + b) == WithBackslashes(a) + WithBackslashes(b)
    decreases |a|
  {
    if a != [] {
      assert (a + b)[0] == a[0] && (a + b)[1..] == a[1..] + b;
      WithBackslashesConcat(a[1..], b);
      assert WithBackslashes(a) == [CanonicalSep(a[0])] + WithBackslashes(a[1..]);
      ConcatAssoc([CanonicalSep(a[0])], WithBackslashes(a[1..]), WithBackslashes(b));
    } else {
      assert a + b == b;
    }
  }

  /// A field holds no separator, so it is its own canonical text
  lemma {:induction false} FieldCanonical(x: Bytes)
    requires FieldOk(x)
    ensures WithBackslashes(x) == x
    decreases |x|
  {
    if x != [] {
      FieldCanonical(x[1..]);
    }
  }

  /// The canonical text of a short head, byte by byte
  lemma HeadCanonical(head: Bytes, text: Bytes)
    requires |head| == |text|
    requires forall k | 0 <= k < |head| :: CanonicalSep(head[k]) == text[k]
    ensures WithBackslashes(head) == text
  {
    forall k | 0 <= k < |head|
      ensures WithBackslashes(head)[k] == text[k]
    {
      WithBackslashesAt(head, k);
    }
  }

  /// Splitting an input into what was consumed and what is left
  lemma ConsumedSplit(s: Bytes, head: Bytes, mid: Bytes, rest: Bytes)
    requires s == head + (mid + rest)
    ensures IsSuffix(rest, s) && Consumed(s, rest) == head + mid
  {
    assert s == (head + mid) + rest;
  }

  // ---------------------------------------------------------------------------
  // Reading a prefix back from its text

  /// A well-formed verbatim name is not followed by `UNC\`
  lemma NotUNCHead(x: Bytes, rest: Bytes, t: Bytes)
    requires x != [] && FieldOk(x) && x != UNC_TAG && (rest == [] || IsSep(rest[0]))
    requires t == x + rest
    ensures !(|t| >= 4 && t[0] == UNC_TAG[0] && t[1] == UNC_TAG[1] && t[2] == UNC_TAG[2] && IsSep(t[3]))
  {
    assert |x| >= 4 ==> t[3] == x[3];
    assert |x| == 3 ==> x == t[..3];
    assert |x| < |t| ==> t[|x|] == rest[0];
  }

  lemma ReadsVerbatim(x: Bytes, rest: Bytes, s: Bytes)
    requires WellFormed(Verbatim(x)) && (rest == [] || IsSep(rest[0]))
    requires s == VERBATIM_START + (x + rest)
    ensures ParsePrefix(s) == Ok(rest, Verbatim(x))
  {
    var t := x + rest;
    assert s[4..] == t;
    NotUNCHead(x, rest, t);
    assert PrefixVerbatimDisk(s).Fail? by {
      if |x| > 1 {
        assert s[5] == x[1];
      } else if rest != [] {
        assert s[5] == rest[0];
      }
    }
    NormalBytesReads(x, rest);
    AnyOfSix(PrefixVerbatimUNC, PrefixVerbatimDisk, PrefixVerbatim, PrefixDeviceNS, PrefixUNC, PrefixDisk, s);
  }

  /// The text of a verbatim UNC prefix starts with `\\?\UNC\`, then server and share
  lemma VerbatimUNCText(x: Bytes, y: Bytes, rest: Bytes, s: Bytes)
    requires s == (VERBATIM_START + UNC_TAG + [BACKSLASH]) + (x + ([BACKSLASH] + (y + rest)))
    ensures VerbatimUNCAt(s) && s[8..] == x + ([BACKSLASH] + (y + rest))
  {
  }

  lemma ReadsVerbatimUNC(x: Bytes, y: Bytes, rest: Bytes, s: Bytes)
    requires WellFormed(VerbatimUNC(x, y)) && (rest == [] || IsSep(rest[0]))
    requires s == (VERBATIM_START + UNC_TAG + [BACKSLASH]) + (x + ([BACKSLASH] + (y + rest)))
    ensures ParsePrefix(s) == Ok(rest, VerbatimUNC(x, y))
  {
    VerbatimUNCText(x, y, rest, s);
    ServerShareReads(x, BACKSLASH, y, rest, s[8..]);
    assert PrefixVerbatimUNC(s) == Ok(rest, VerbatimUNC(x, y));
    AnyOfSix(PrefixVerbatimUNC, PrefixVerbatimDisk, PrefixVerbatim, PrefixDeviceNS, PrefixUNC, PrefixDisk, s);
  }

  lemma ReadsVerbatimDisk(d: byte, rest: Bytes, s: Bytes)
    requires WellFormed(VerbatimDisk(d)) && (rest == [] || IsSep(rest[0]))
    requires s == VERBATIM_START + ([d, COLON] + rest)
    ensures ParsePrefix(s) == Ok(rest, VerbatimDisk(d))
  {
    assert s[4] == d && s[5] == COLON && s[6..] == rest;
    AnyOfSix(PrefixVerbatimUNC, PrefixVerbatimDisk, PrefixVerbatim, PrefixDeviceNS, PrefixUNC, PrefixDisk, s);
  }

  lemma ReadsDeviceNS(x: Bytes, rest: Bytes, s: Bytes)
    requires WellFormed(DeviceNS(x)) && (rest == [] || IsSep(rest[0]))
    requires s == DEVICE_START + (x + rest)
    ensures ParsePrefix(s) == Ok(rest, DeviceNS(x))
  {
    assert s[2] == DOT && s[4..] == x + rest;
    NormalBytesReads(x, rest);
    AnyOfSix(PrefixVerbatimUNC, PrefixVerbatimDisk, PrefixVerbatim, PrefixDeviceNS, PrefixUNC, PrefixDisk, s);
  }

  lemma ReadsUNC(x: Bytes, y: Bytes, rest: Bytes, s: Bytes)
    requires WellFormed(UNC(x, y)) && (rest == [] || IsSep(rest[0]))
    requires s == [BACKSLASH, BACKSLASH] + (x + ([BACKSLASH] + (y + rest)))
    ensures ParsePrefix(s) == Ok(rest, UNC(x, y))
  {
    assert s[2] == x[0];
    assert !DeviceAt(s) by {
      if |x| > 1 {
        assert s[3] == x[1];
      } else {
        assert x == [x[0]];
      }
    }
    ServerShareReads(x, BACKSLASH, y, rest, s[2..]);
    AnyOfSix(PrefixVerbatimUNC, PrefixVerbatimDisk, PrefixVerbatim, PrefixDeviceNS, PrefixUNC, PrefixDisk, s);
  }

  lemma ReadsDisk(d: byte, rest: Bytes, s: Bytes)
    requires WellFormed(Disk(d)) && (rest == [] || IsSep(rest[0]))
    requires s == [d, COLON] + rest
    ensures ParsePrefix(s) == Ok(rest, Disk(d))
  {
    assert s[0] == d && s[1] == COLON && s[2..] == rest;
    AnyOfSix(PrefixVerbatimUNC, PrefixVerbatimDisk, PrefixVerbatim, PrefixDeviceNS, PrefixUNC, PrefixDisk, s);
  }

  /// Every well-formed prefix, written out and followed by a separator or
  /// the end, reads back as itself
  lemma PrefixRoundTrip(p: WindowsPrefix, rest: Bytes)
    requires WellFormed(p) && (rest == [] || IsSep(rest[0]))
    ensures ParsePrefix(Render(p) + rest) == Ok(rest, p)
  {
    match p
    case Verbatim(x) =>
      ReadsVerbatim(x, rest, Render(p) + rest);
    case VerbatimUNC(x, y) =>
      VerbatimUNCRoundTrip(x, y, rest);
    case VerbatimDisk(d) =>
      ReadsVerbatimDisk(d, rest, Render(p) + rest);
    case DeviceNS(x) =>
      ReadsDeviceNS(x, rest, Render(p) + rest);
    case UNC(x, y) =>
      UNCRoundTrip(x, y, rest);
    case Disk(d) =>
      ReadsDisk(d, rest, Render(p) + rest);
  }

  lemma VerbatimUNCRoundTrip(x: Bytes, y: Bytes, rest: Bytes)
    requires WellFormed(VerbatimUNC(x, y)) && (rest == [] || IsSep(rest[0]))
    ensures ParsePrefix(Render(VerbatimUNC(x, y)) + rest) == Ok(rest, VerbatimUNC(x, y))
  {
    var s := Render(VerbatimUNC(x, y)) + rest;
    assert s == (VERBATIM_START + UNC_TAG + [BACKSLASH]) + (x + ([BACKSLASH] + (y + rest)));
    ReadsVerbatimUNC(x, y, rest, s);
  }

  lemma UNCRoundTrip(x: Bytes, y: Bytes, rest: Bytes)
    requires WellFormed(UNC(x, y)) && (rest == [] || IsSep(rest[0]))
    ensures ParsePrefix(Render(UNC(x, y)) + rest) == Ok(rest, UNC(x, y))
  {
    var s := Render(UNC(x, y)) + rest;
    assert s == [BACKSLASH, BACKSLASH] + (x + ([BACKSLASH] + (y + rest)));
    ReadsUNC(x, y, rest, s);
  }

  // ---------------------------------------------------------------------------
  // What a successful read consumed

  /// The parts `ServerShare` found: server, separator and share make up
  /// `mid`, and the rest follows
  lemma ServerShareParts(t: Bytes) returns (sep: byte, mid: Bytes)
    requires ServerShare(t).Ok?
    ensures IsSep(sep)
    ensures mid == ServerShare(t).value.0 + ([sep] + ServerShare(t).value.1)
    ensures t == mid + ServerShare(t).rest
  {
    var r := ServerShare(t);
    var n := |r.value.0|;
    sep := t[n];
    mid := r.value.0 + ([sep] + r.value.1);
    SplitAround(t, n);
    ConcatAssoc(r.value.0, [sep] + r.value.1, r.rest);
    ConcatAssoc([sep], r.value.1, r.rest);
  }

  /// A sequence is the part before index `n`, the byte there, and the rest
  lemma SplitAround(t: Bytes, n: nat)
    requires n < |t|
    ensures t == t[..n] + ([t[n]] + t[n + 1..])
  {
  }

  /// Server and share around either separator, written with `\`
  lemma ServerShareCanonical(x: Bytes, sep: byte, y: Bytes)
    requires FieldOk(x) && FieldOk(y) && IsSep(sep) && y != []
    ensures WithBackslashes(x + ([sep] + y)) == x + ShareText(y)
  {
    WithBackslashesConcat(x, [sep] + y);
    WithBackslashesConcat([sep], y);
    FieldCanonical(x);
    FieldCanonical(y);
  }

  /// The bytes `ServerShare` consumed, with `/` written as `\`, are the two
  /// fields around one `\`
  lemma ServerShareWritten(t: Bytes) returns (mid: Bytes)
    requires ServerShare(t).Ok?
    ensures t == mid + ServerShare(t).rest
    ensures WithBackslashes(mid) == ServerShare(t).value.0 + ShareText(ServerShare(t).value.1)
  {
    var r := ServerShare(t);
    var sep;
    sep, mid := ServerShareParts(t);
    ServerShareCanonical(r.value.0, sep, r.value.1);
  }

  /// The canonical text of what was consumed, from that of its two parts
  lemma WrittenFromParts(s: Bytes, n: nat, mid: Bytes, rest: Bytes, text: Bytes, tail: Bytes)
    requires n <= |s| && s[n..] == mid + rest
    requires WithBackslashes(s[..n]) == text && WithBackslashes(mid) == tail
    ensures IsSuffix(rest, s) && WithBackslashes(Consumed(s, rest)) == text + tail
  {
    assert s == s[..n] + s[n..];
    ConsumedSplit(s, s[..n], mid, rest);
    WithBackslashesConcat(s[..n], mid);
  }

  /// A server and share after a head, written out
  lemma ServerShareRender(head: Bytes, x: Bytes, y: Bytes)
    ensures head + x + ShareText(y) == head + (x + ShareText(y))
  {
  }

  /// A successful read of `s` produced a well-formed prefix, and what it
  /// consumed, with `/` written as `\`, is that prefix's text
  predicate ReadsWritten(s: Bytes, r: PResult<WindowsPrefix>) {
    r.Ok? ==> WellFormed(r.value) && IsSuffix(r.rest, s) && WithBackslashes(Consumed(s, r.rest)) == Render(r.value)
  }

  /// `\\?\UNC\` with either separators, written with `\`
  lemma VerbatimUNCHead(s: Bytes)
    requires VerbatimUNCAt(s)
    ensures WithBackslashes(s[..8]) == VERBATIM_START + UNC_TAG + [BACKSLASH]
  {
    var h := s[..8];
    var text := VERBATIM_START + UNC_TAG + [BACKSLASH];
    assert text == [BACKSLASH, BACKSLASH, QUESTION, BACKSLASH, UNC_TAG[0], UNC_TAG[1], UNC_TAG[2], BACKSLASH];
    assert h[0] == s[0] && h[1] == s[1] && h[2] == s[2] && h[3] == s[3];
    assert h[4] == s[4] && h[5] == s[5] && h[6] == s[6] && h[7] == s[7];
    HeadCanonical(h, text);
  }

  /// `\\?\` or `\\.\` with either separators, written with `\`
  lemma FourByteHead(s: Bytes, mark: byte)
    requires |s| >= 4 && IsSep(s[0]) && IsSep(s[1]) && s[2] == mark && IsSep(s[3]) && mark != SLASH
    ensures WithBackslashes(s[..4]) == [BACKSLASH, BACKSLASH, mark, BACKSLASH]
  {
    var h := s[..4];
    assert h[0] == s[0] && h[1] == s[1] && h[2] == s[2] && h[3] == s[3];
    HeadCanonical(h, [BACKSLASH, BACKSLASH, mark, BACKSLASH]);
  }

  /// Two separators, written with `\`
  lemma TwoSepHead(s: Bytes)
    requires |s| >= 2 && IsSep(s[0]) && IsSep(s[1])
    ensures WithBackslashes(s[..2]) == [BACKSLASH, BACKSLASH]
  {
    var h := s[..2];
    assert h[0] == s[0] && h[1] == s[1];
    HeadCanonical(h, [BACKSLASH, BACKSLASH]);
  }

  /// A drive letter and `:`, which hold no separator
  lemma DriveHead(s: Bytes, n: nat)
    requires n + 2 <= |s| && IsAlphabetic(s[n]) && s[n + 1] == COLON
    ensures WithBackslashes(s[n..n + 2]) == [s[n], COLON]
  {
    var h := s[n..n + 2];
    assert h[0] == s[n] && h[1] == s[n + 1];
    HeadCanonical(h, [s[n], COLON]);
  }

  lemma VerbatimUNCWritten(s: Bytes)
    ensures ReadsWritten(s, PrefixVerbatimUNC(s))
  {
    var r := PrefixVerbatimUNC(s);
    if r.Ok? {
      var mid := ServerShareWritten(s[8..]);
      var text := VERBATIM_START + UNC_TAG + [BACKSLASH];
      VerbatimUNCHead(s);
      WrittenFromParts(s, 8, mid, r.rest, text, r.value.server + ShareText(r.value.share));
      ServerShareRender(text, r.value.server, r.value.share);
    }
  }

  lemma UNCWritten(s: Bytes)
    requires PrefixDeviceNS(s).Fail?
    ensures ReadsWritten(s, PrefixUNC(s))
  {
    var r := PrefixUNC(s);
    if r.Ok? {
      var mid := ServerShareWritten(s[2..]);
      var text := [BACKSLASH, BACKSLASH];
      TwoSepHead(s);
      WrittenFromParts(s, 2, mid, r.rest, text, r.value.server + ShareText(r.value.share));
      ServerShareRender(text, r.value.server, r.value.share);
      UNCServerNotDot(s);
    }
  }

  /// A parsed UNC server is never `.`: `\\.\` followed by a name is a device
  lemma UNCServerNotDot(s: Bytes)
    requires PrefixUNC(s).Ok? && PrefixDeviceNS(s).Fail?
    ensures PrefixUNC(s).value.server != CURRENT_DIR
  {
  }

  lemma VerbatimWritten(s: Bytes)
    ensures ReadsWritten(s, PrefixVerbatim(s))
  {
    var r := PrefixVerbatim(s);
    if r.Ok? {
      var v := NormalBytes(s[4..]);
      FourByteHead(s, QUESTION);
      FieldCanonical(v.value);
      WrittenFromParts(s, 4, v.value, v.rest, VERBATIM_START, v.value);
    }
  }

  lemma DeviceNSWritten(s: Bytes)
    ensures ReadsWritten(s, PrefixDeviceNS(s))
  {
    var r := PrefixDeviceNS(s);
    if r.Ok? {
      var v := NormalBytes(s[4..]);
      FourByteHead(s, DOT);
      FieldCanonical(v.value);
      WrittenFromParts(s, 4, v.value, v.rest, DEVICE_START, v.value);
    }
  }

  lemma VerbatimDiskWritten(s: Bytes)
    ensures ReadsWritten(s, PrefixVerbatimDisk(s))
  {
    var r := PrefixVerbatimDisk(s);
    if r.Ok? {
      FourByteHead(s, QUESTION);
      DriveHead(s, 4);
      assert s[4..][..2] == s[4..6];
      WrittenFromParts(s, 4, s[4..6], s[6..], VERBATIM_START, [s[4], COLON]);
    }
  }

  lemma DiskWritten(s: Bytes)
    ensures ReadsWritten(s, PrefixDisk(s))
  {
    var r := PrefixDisk(s);
    if r.Ok? {
      DriveHead(s, 0);
      assert s[..2] == s[0..2];
    }
  }

  /// Whatever `prefix` reads is a well-formed prefix, and the bytes it
  /// consumed, with `/` written as `\`, are that prefix's text; so the raw
  /// bytes have the length `len` reports
  lemma PrefixReadsWritten(s: Bytes)
    requires ParsePrefix(s).Ok?
    ensures WellFormed(ParsePrefix(s).value)
    ensures IsSuffix(ParsePrefix(s).rest, s)
    ensures WithBackslashes(Consumed(s, ParsePrefix(s).rest)) == Render(ParsePrefix(s).value)
    ensures |s| - |ParsePrefix(s).rest| == PrefixLen(ParsePrefix(s).value)
  {
    AnyOfSix(PrefixVerbatimUNC, PrefixVerbatimDisk, PrefixVerbatim, PrefixDeviceNS, PrefixUNC, PrefixDisk, s);
    VerbatimUNCWritten(s);
    VerbatimDiskWritten(s);
    VerbatimWritten(s);
    DeviceNSWritten(s);
    if PrefixDeviceNS(s).Fail? {
      UNCWritten(s);
    }
    DiskWritten(s);
  }

  // ---------------------------------------------------------------------------
  // The drive-letter guard of `prefix_verbatim`

  /// `\\?\C:` alone: as written, `prefix_verbatim` reads the verbatim name
  /// `C` and leaves the `:`; the intended check rejects it
  lemma VerbatimDriveGuard(s: Bytes)
    requires s == VERBATIM_START + [67, COLON]
    ensures PrefixVerbatimAsWritten(s) == Ok([COLON], Verbatim([67]))
    ensures PrefixVerbatim(s).Fail?
  {
    VerbatimDriveReadsName(s);
    VerbatimDriveRejected(s);
  }

  lemma VerbatimDriveReadsName(s: Bytes)
    requires s == VERBATIM_START + [67, COLON]
    ensures PrefixVerbatimAsWritten(s) == Ok([COLON], Verbatim([67]))
  {
    assert s[4..] == [67] + [COLON];
    NormalBytesReads([67], [COLON]);
  }

  lemma VerbatimDriveRejected(s: Bytes)
    requires s == VERBATIM_START + [67, COLON]
    ensures PrefixVerbatim(s).Fail?
  {
    assert s[4..] == [67] + [COLON];
    NormalBytesReads([67], [COLON]);
    TakeOneOfOneByteFails(67);
  }

  /// The two `prefix_verbatim`s differ only on a drive letter followed by
  /// `:`, which `prefix_verbatim_disk` reads
  lemma VerbatimGuardOnlyBeforeColon(s: Bytes)
    ensures PrefixVerbatimDisk(s).Fail? ==> PrefixVerbatimAsWritten(s) == PrefixVerbatim(s)
  {
    if VerbatimAt(s) && NormalBytes(s[4..]).Ok? {
      var v := NormalBytes(s[4..]);
      var x := v.value;
      if |x| == 1 && IsAlphabetic(x[0]) && v.rest != [] && v.rest[0] == COLON {
        assert s[4..] == [x[0]] + v.rest;
        assert s[4] == x[0] && s[5] == COLON;
      }
    }
  }

  /// So through `prefix` the guard never changes the outcome
  lemma PrefixGuardUnreachable(s: Bytes)
    ensures ParsePrefixAsWritten(s) == ParsePrefix(s)
  {
    AnyOfSix(PrefixVerbatimUNC, PrefixVerbatimDisk, PrefixVerbatim, PrefixDeviceNS, PrefixUNC, PrefixDisk, s);
    AnyOfSix(PrefixVerbatimUNC, PrefixVerbatimDisk, PrefixVerbatimAsWritten, PrefixDeviceNS, PrefixUNC, PrefixDisk, s);
    VerbatimGuardOnlyBeforeColon(s);
  }
}
