/**
 The MVCC logical log as its writer lays it out, field by field: the partner of the scanner. A log
 scans exactly when it is a written header followed by written transactions, up to a torn tail.
 */
module LogWriter {
  import opened Common
  import opened MvccLog

  /** `n` in `k` bytes, lowest first. */
  function LeBytes(n: nat, k: nat): (b: seq<byte>)
    ensures |b| == k
  {
    if k == 0 then [] else [n % 0x100] + LeBytes(n / 0x100, k - 1)
  }

  function Zeros(k: nat): (b: seq<byte>)
    ensures |b| == k && forall i :: 0 <= i < k ==> b[i] == 0
  {
    seq(k, _ => 0)
  }

  // ---------------------------------------------------------------- layout

  /** "LML2", version 3, flags, a length of 56, the salt, 36 reserved zeros. */
  function HeaderStart(flags: byte, salt: uint64): (b: seq<byte>)
    ensures |b| == 52
  {
    [0x32, 0x4C, 0x4D, 0x4C] + [3] + [flags] + [56, 0] + LeBytes(salt, 8) + Zeros(36)
  }

  /** The header closes with the CRC of itself, its CRC field taken as zero. */
  function Header(append: CrcAppend, flags: byte, salt: uint64): (b: seq<byte>)
    ensures |b| == 56
  {
    HeaderStart(flags, salt) + LeBytes(append(0, HeaderStart(flags, salt) + Zeros(4)), 4)
  }

  /** The CRC the first transaction is chained from. */
  function SaltCrc(append: CrcAppend, salt: uint64): uint32 { append(0, LeBytes(salt, 8)) }

  datatype Extension = Extension(block: seq<byte>, records: uint32, flags: uint32)

  datatype Transaction = Transaction(ops: uint32, commitTs: uint64, extension: Option<Extension>, payload: seq<byte>)

  /** Sizes fit their fields, and only a flagged extension block has bytes or records. */
  predicate Writable(t: Transaction)
  {
    && |t.payload| <= USIZE_MAX
    && match t.extension
       case None => true
       case Some(x) =>
         && |x.block| <= USIZE_MAX && x.flags <= 1
         && (x.block == [] ==> x.records == 0) && (x.block != [] ==> x.flags == 1)
  }

  /** "MVTX" or "MVEX", the sizes and counts, then the extension block and the payload. */
  function Unsealed(t: Transaction): seq<byte>
  {
    match t.extension
    case None =>
      [0x4D, 0x56, 0x54, 0x58] + LeBytes(|t.payload|, 8) + LeBytes(t.ops, 4) + LeBytes(t.commitTs, 8) + t.payload
    case Some(x) =>
      [0x4D, 0x56, 0x45, 0x58] + LeBytes(|t.payload|, 8) + LeBytes(t.ops, 4) + LeBytes(t.commitTs, 8)
      + LeBytes(|x.block|, 8) + LeBytes(x.records, 4) + LeBytes(x.flags, 4) + x.block + t.payload
  }

  /** The running CRC extended over the transaction. */
  function SealCrc(append: CrcAppend, running: uint32, t: Transaction): uint32 { append(running, Unsealed(t)) }

  /** A transaction closes with that CRC and "MVTE". */
  function Sealed(append: CrcAppend, running: uint32, t: Transaction): seq<byte>
  {
    Unsealed(t) + LeBytes(SealCrc(append, running, t), 4) + [0x4D, 0x56, 0x54, 0x45]
  }

  function Body(append: CrcAppend, running: uint32, ts: seq<Transaction>): seq<byte>
    decreases |ts|
  {
    if ts == [] then [] else Sealed(append, running, ts[0]) + Body(append, SealCrc(append, running, ts[0]), ts[1..])
  }

  /** Where each transaction ends, and its CRC. */
  function Ends(append: CrcAppend, offset: nat, running: uint32, ts: seq<Transaction>): seq<Boundary>
    decreases |ts|
  {
    if ts == [] then []
    else
      var end, crc := offset + |Sealed(append, running, ts[0])|, SealCrc(append, running, ts[0]);
      [(end, crc)] + Ends(append, end, crc, ts[1..])
  }

  function Log(append: CrcAppend, flags: byte, salt: uint64, ts: seq<Transaction>): seq<byte>
  {
    Header(append, flags, salt) + Body(append, SaltCrc(append, salt), ts)
  }

  predicate AllWritable(ts: seq<Transaction>) { forall i :: 0 <= i < |ts| ==> Writable(ts[i]) }

  // ---------------------------------------------------------------- numbers

  lemma {:induction false} LeRoundTrip(n: nat, k: nat)
    requires n < Pow256(k)
    ensures LeNat(LeBytes(n, k)) == n
  {
    if k > 0 {
      LeRoundTrip(n / 0x100, k - 1);
      assert LeBytes(n, k)[1..] == LeBytes(n / 0x100, k - 1);
    } else {
      assert Pow256(0) == 1;
    }
  }

  lemma {:induction false} LeUnique(b: seq<byte>)
    ensures LeBytes(LeNat(b), |b|) == b
  {
    if b != [] {
      LeUnique(b[1..]);
      assert LeNat(b) == b[0] as nat + 0x100 * LeNat(b[1..]);
      assert LeNat(b) / 0x100 == LeNat(b[1..]) && LeNat(b) % 0x100 == b[0] as nat;
    }
  }

  lemma Powers()
    ensures Pow256(4) == 0x1_0000_0000 && Pow256(8) == 0x1_0000_0000_0000_0000
  {
  }

  /** Reading a field that was written there. */
  lemma ReadField(b: seq<byte>, i: nat, n: nat, k: nat)
    requires i + k <= |b| && b[i..i + k] == LeBytes(n, k) && n < Pow256(k)
    ensures LeNat(b[i..i + k]) == n
  {
    LeRoundTrip(n, k);
  }

  lemma Magics()
    ensures LeNat([0x32, 0x4C, 0x4D, 0x4C]) == 0x4C4D4C32 && LeNat([0x4D, 0x56, 0x54, 0x58]) == 0x5854564D
    ensures LeNat([0x4D, 0x56, 0x45, 0x58]) == 0x5845564D && LeNat([0x4D, 0x56, 0x54, 0x45]) == 0x4554564D
  {
    FourBytes([0x32, 0x4C, 0x4D, 0x4C]);
    FourBytes([0x4D, 0x56, 0x54, 0x58]);
    FourBytes([0x4D, 0x56, 0x45, 0x58]);
    FourBytes([0x4D, 0x56, 0x54, 0x45]);
  }

  lemma FourBytes(b: seq<byte>)
    requires |b| == 4
    ensures LeNat(b) == b[0] as nat + 0x100 * b[1] as nat + 0x1_0000 * b[2] as nat + 0x100_0000 * b[3] as nat
  {
    assert b[1..][1..] == b[2..] && b[2..][1..] == b[3..] && b[3..][1..] == [];
    assert LeNat(b[3..]) == b[3] as nat;
    assert LeNat(b[2..]) == b[2] as nat + 0x100 * b[3] as nat;
    assert LeNat(b[1..]) == b[1] as nat + 0x100 * LeNat(b[2..]);
  }

  // ---------------------------------------------------------------- headers

  lemma HeaderFields(append: CrcAppend, flags: byte, salt: uint64, log: seq<byte>)
    requires Header(append, flags, salt) <= log
    ensures |log| >= 56 && log[0..4] == [0x32, 0x4C, 0x4D, 0x4C] && log[4] == 3 && log[5] == flags && log[6] == 56 && log[7] == 0
    ensures log[8..16] == LeBytes(salt, 8) && (forall i :: 16 <= i < 52 ==> log[i] == 0)
    ensures log[..52] == HeaderStart(flags, salt) && log[52..56] == LeBytes(append(0, HeaderStart(flags, salt) + Zeros(4)), 4)
  {
    hide LeBytes;
    var h := Header(append, flags, salt);
    assert log[..56] == h;
    assert forall i :: 0 <= i < 56 ==> log[i] == h[i];
    assert h[8..16] == LeBytes(salt, 8);
    assert log[8..16] == h[8..16];
    assert log[52..56] == h[52..56];
    assert log[..52] == h[..52];
  }

  /** A written header is accepted, and starts the chain at the CRC of its salt. */
  lemma WrittenHeaderAccepted(append: CrcAppend, flags: byte, salt: uint64, log: seq<byte>)
    requires Header(append, flags, salt) <= log && flags <= 1
    ensures ValidateHeader(append, log) == Ok(()) && InitialCrc(append, log) == SaltCrc(append, salt)
  {
    hide LeNat, LeBytes, HeaderStart;
    HeaderFields(append, flags, salt, log);
    Magics();
    Powers();
    assert Zeros(4) == [0, 0, 0, 0];
    ReadField(log, 52, append(0, HeaderStart(flags, salt) + Zeros(4)), 4);
  }

  /** Only a written header is accepted. */
  lemma AcceptedHeaderIsWritten(append: CrcAppend, log: seq<byte>) returns (flags: byte, salt: uint64)
    requires |log| >= LOG_HEADER_SIZE && ValidateHeader(append, log).Ok?
    ensures flags <= 1 && Header(append, flags, salt) <= log
  {
    hide LeNat, LeBytes;
    flags, salt := log[5], U64Le(log, 8);
    LeUnique(log[8..16]);
    LeUnique(log[52..56]);
    Magics();
    var start := HeaderStart(flags, salt);
    assert log[8..16] == LeBytes(salt, 8);
    assert log[16..52] == Zeros(36);
    assert log[..52] == log[0..4] + [log[4]] + [log[5]] + [log[6], log[7]] + log[8..16] + log[16..52];
    FourUnique(log[0..4], [0x32, 0x4C, 0x4D, 0x4C]);
    assert log[..52] == start;
    assert Zeros(4) == [0, 0, 0, 0];
    assert log[..56] == log[..52] + log[52..56];
  }

  lemma FourUnique(a: seq<byte>, b: seq<byte>)
    requires |a| == 4 && |b| == 4 && LeNat(a) == LeNat(b)
    ensures a == b
  {
    LeUnique(a);
    LeUnique(b);
  }

  // ---------------------------------------------------------------- transactions

  lemma UnsealedFields(t: Transaction, f: seq<byte>)
    requires Unsealed(t) <= f
    ensures |f| >= 24 && f[4..12] == LeBytes(|t.payload|, 8) && f[12..16] == LeBytes(t.ops, 4) && f[16..24] == LeBytes(t.commitTs, 8)
    ensures f[0..4] == if t.extension.None? then [0x4D, 0x56, 0x54, 0x58] else [0x4D, 0x56, 0x45, 0x58]
    ensures t.extension.Some? ==>
              && |f| >= 40 && f[24..32] == LeBytes(|t.extension.value.block|, 8)
              && f[32..36] == LeBytes(t.extension.value.records, 4) && f[36..40] == LeBytes(t.extension.value.flags, 4)
    ensures |Unsealed(t)| == (if t.extension.None? then 24 else 40 + |t.extension.value.block|) + |t.payload|
  {
    hide LeBytes;
    var u := Unsealed(t);
    assert f[..|u|] == u;
    assert f[0..4] == u[0..4] && f[4..12] == u[4..12] && f[12..16] == u[12..16] && f[16..24] == u[16..24];
    if t.extension.Some? {
      assert f[24..32] == u[24..32] && f[32..36] == u[32..36] && f[36..40] == u[36..40];
    }
  }

  /** A written transaction is one whole frame of the chain, with the CRC it was sealed with. */
  lemma SealedIsFrame(append: CrcAppend, running: uint32, t: Transaction)
    requires Writable(t)
    ensures var f := Sealed(append, running, t);
            |f| >= 32 && Frame(append, running, f) && FrameCrc(f) == SealCrc(append, running, t)
  {
    hide LeNat, LeBytes, Unsealed;
    var f, u := Sealed(append, running, t), Unsealed(t);
    UnsealedFields(t, f);
    Magics();
    Powers();
    ReadField(f, 4, |t.payload|, 8);
    if t.extension.Some? {
      var x := t.extension.value;
      ReadField(f, 24, |x.block|, 8);
      ReadField(f, 32, x.records, 4);
      ReadField(f, 36, x.flags, 4);
    }
    assert f[|f| - 8..|f| - 8 + 4] == LeBytes(SealCrc(append, running, t), 4);
    ReadField(f, |f| - 8, SealCrc(append, running, t), 4);
    assert f[|f| - 4..|f| - 4 + 4] == [0x4D, 0x56, 0x54, 0x45];
    assert f[..|f| - 8] == u;
  }

  lemma PlainFields(f: seq<byte>, n: nat) returns (t: Transaction)
    requires 24 <= n <= |f| && U32Le(f, 0) == TX_MAGIC && n == 24 + U64Le(f, 4)
    ensures Writable(t) && f[..n] == Unsealed(t)
  {
    hide LeNat, LeBytes;
    Magics();
    FourUnique(f[0..0 + 4], [0x4D, 0x56, 0x54, 0x58]);
    LeUnique(f[4..4 + 8]);
    LeUnique(f[12..12 + 4]);
    LeUnique(f[16..16 + 8]);
    t := Transaction(U32Le(f, 12), U64Le(f, 16), None, f[24..n]);
    assert f[..n] == f[0..4] + f[4..12] + f[12..16] + f[16..24] + f[24..n];
  }

  lemma ExtensionFields(f: seq<byte>, n: nat) returns (t: Transaction)
    requires 40 <= n <= |f| && U32Le(f, 0) == TX_EXT_MAGIC && n == 40 + U64Le(f, 24) + U64Le(f, 4)
    requires U32Le(f, 36) <= 1 && (U64Le(f, 24) == 0 ==> U32Le(f, 32) == 0) && (U64Le(f, 24) > 0 ==> U32Le(f, 36) == 1)
    ensures Writable(t) && f[..n] == Unsealed(t)
  {
    hide LeNat, LeBytes;
    Magics();
    FourUnique(f[0..0 + 4], [0x4D, 0x56, 0x45, 0x58]);
    LeUnique(f[4..4 + 8]);
    LeUnique(f[12..12 + 4]);
    LeUnique(f[16..16 + 8]);
    LeUnique(f[24..24 + 8]);
    LeUnique(f[32..32 + 4]);
    LeUnique(f[36..36 + 4]);
    var split := 40 + U64Le(f, 24);
    t := Transaction(U32Le(f, 12), U64Le(f, 16), Some(Extension(f[40..split], U32Le(f, 32), U32Le(f, 36))), f[split..n]);
    assert f[..n] == f[0..4] + f[4..12] + f[12..16] + f[16..24] + f[24..32] + f[32..36] + f[36..40] + f[40..split] + f[split..n];
  }

  /** Every frame of the chain is a written transaction. */
  lemma FrameIsSealed(append: CrcAppend, running: uint32, f: seq<byte>) returns (t: Transaction)
    requires Frame(append, running, f)
    ensures Writable(t) && f == Sealed(append, running, t)
  {
    hide LeNat, LeBytes, Unsealed, Writable;
    Magics();
    var n := |f| - 8;
    if U32Le(f, 0) == TX_EXT_MAGIC {
      t := ExtensionFields(f, n);
    } else {
      t := PlainFields(f, n);
    }
    LeUnique(f[n..n + 4]);
    FourUnique(f[n + 4..n + 4 + 4], [0x4D, 0x56, 0x54, 0x45]);
    assert f == f[..n] + f[n..n + 4] + f[n + 4..n + 4 + 4];
  }

  // ---------------------------------------------------------------- logs

  /** Scanning written transactions finds where each ends and its CRC, and goes on after the last. */
  lemma {:induction false} WrittenBodyScans(append: CrcAppend, log: seq<byte>, offset: nat, running: uint32, ts: seq<Transaction>)
    requires offset <= |log| <= USIZE_MAX && AllWritable(ts) && log[offset..] == Body(append, running, ts)
    ensures ScanFrom(append, log, offset, running) == Ok(Ends(append, offset, running, ts))
    decreases |ts|
  {
    hide Sealed, Frame, FrameCrc, SealCrc, FrameBoundary;
    if ts == [] {
      TornAtEnd(append, log, running);
    } else {
      var f, crc := Sealed(append, running, ts[0]), SealCrc(append, running, ts[0]);
      var end := offset + |f|;
      SealedIsFrame(append, running, ts[0]);
      assert log[offset..][..|f|] == f && log[offset..][|f|..] == Body(append, crc, ts[1..]);
      assert log[offset..end] == f && log[end..] == Body(append, crc, ts[1..]);
      BoundaryIffFrame(append, log, offset, running, end, crc);
      WrittenBodyScans(append, log, end, crc, ts[1..]);
    }
  }

  /** Whatever header and transactions are written, the log scans to their ends and CRCs. */
  lemma WrittenLogScans(append: CrcAppend, flags: byte, salt: uint64, ts: seq<Transaction>)
    requires flags <= 1 && AllWritable(ts) && |Log(append, flags, salt, ts)| <= USIZE_MAX
    ensures var bs := [(56, SaltCrc(append, salt))] + Ends(append, 56, SaltCrc(append, salt), ts);
            Scan(append, Log(append, flags, salt, ts)) == Ok(Snapshot(bs[|bs| - 1].0, bs))
  {
    hide Header, Body, Ends, ScanFrom, ValidateHeader, InitialCrc;
    var log := Log(append, flags, salt, ts);
    assert log[..56] == Header(append, flags, salt) && log[56..] == Body(append, SaltCrc(append, salt), ts);
    WrittenHeaderAccepted(append, flags, salt, log);
    WrittenBodyScans(append, log, 56, SaltCrc(append, salt), ts);
  }

  lemma {:induction false} ScannedBodyIsWritten(append: CrcAppend, log: seq<byte>, offset: nat, running: uint32)
    returns (ts: seq<Transaction>)
    requires offset <= |log| <= USIZE_MAX && ScanFrom(append, log, offset, running).Ok?
    ensures var bs := ScanFrom(append, log, offset, running).value;
            AllWritable(ts) && bs == Ends(append, offset, running, ts) && log[offset..EndOf(offset, bs)] == Body(append, running, ts)
    decreases |log| - offset
  {
    hide Sealed, Frame, FrameCrc, SealCrc, FrameBoundary;
    var next := FrameBoundary(append, log, offset, running).value;
    if next.None? {
      ts := [];
    } else {
      var (end, crc) := next.value;
      BoundaryIffFrame(append, log, offset, running, end, crc);
      var t := FrameIsSealed(append, running, log[offset..end]);
      SealedIsFrame(append, running, t);
      var rest := ScannedBodyIsWritten(append, log, end, crc);
      ts := [t] + rest;
      assert ts[1..] == rest;
      var bs := ScanFrom(append, log, offset, running).value;
      assert bs[1..] == ScanFrom(append, log, end, crc).value;
      var stop := EndOf(end, bs[1..]);
      assert log[offset..stop] == log[offset..end] + log[end..stop];
    }
  }

  /** Up to the end it reports, a log that scans is exactly some header and transactions as written. */
  lemma ScannedLogIsWritten(append: CrcAppend, log: seq<byte>) returns (flags: byte, salt: uint64, ts: seq<Transaction>)
    requires log != [] && |log| <= USIZE_MAX && Scan(append, log).Ok?
    ensures flags <= 1 && AllWritable(ts)
    ensures var s := Scan(append, log).value;
            && log[..s.endOffset] == Log(append, flags, salt, ts)
            && s.crcByOffset == [(56, SaltCrc(append, salt))] + Ends(append, 56, SaltCrc(append, salt), ts)
  {
    hide Header, Body, Ends, ScanFrom, ValidateHeader, InitialCrc;
    flags, salt := AcceptedHeaderIsWritten(append, log);
    WrittenHeaderAccepted(append, flags, salt, log);
    ts := ScannedBodyIsWritten(append, log, 56, SaltCrc(append, salt));
    var end := Scan(append, log).value.endOffset;
    assert log[..end] == log[..56] + log[56..end];
  }

  // ---------------------------------------------------------------- what is refused, and what is torn

  /** Too short for a frame, or shorter than the frame its valid header announces. */
  predicate Torn(tail: seq<byte>)
  {
    || |tail| < 32
    || (tail[0..4] == [0x4D, 0x56, 0x45, 0x58] && |tail| < 48)
    || (FrameHeaderOk(tail) && |tail| < FrameLen(tail) <= USIZE_MAX)
  }

  /** The frame reader stops quietly exactly at a torn tail; whatever is neither torn nor a whole frame is an error. */
  lemma QuietIffTorn(append: CrcAppend, log: seq<byte>, offset: nat, running: uint32)
    requires offset <= |log| && (FrameHeaderOk(log[offset..]) ==> offset + FrameLen(log[offset..]) <= USIZE_MAX)
    ensures FrameBoundary(append, log, offset, running) == Ok(None) <==> Torn(log[offset..])
  {
    hide LeNat;
    var t := log[offset..];
    WordsOfSlice(log, offset, |log|);
    assert log[offset..|log|] == t;
    Magics();
    if |t| >= 4 {
      if U32Le(t, 0) == TX_EXT_MAGIC {
        FourUnique(t[0..0 + 4], [0x4D, 0x56, 0x45, 0x58]);
      }
    }
  }

  /** The page fallback is taken exactly for logs with the right magic and another version. */
  lemma OtherVersionIff(append: CrcAppend, log: seq<byte>, v: byte)
    ensures Scan(append, log) == Err(UnsupportedVersion(v))
       <==> |log| >= 56 && log[0..4] == [0x32, 0x4C, 0x4D, 0x4C] && log[4] == v && v != 3
  {
    hide LeNat, ScanFrom;
    Magics();
    if |log| >= 56 {
      if U32Le(log, 0) == LOG_MAGIC {
        FourUnique(log[0..0 + 4], [0x32, 0x4C, 0x4D, 0x4C]);
      }
    }
    if |log| >= 56 {
      NoVersionInFrames(append, log, 56, InitialCrc(append, log), v);
    }
  }

  lemma {:induction false} NoVersionInFrames(append: CrcAppend, log: seq<byte>, offset: nat, running: uint32, v: byte)
    requires offset <= |log|
    ensures ScanFrom(append, log, offset, running) != Err(UnsupportedVersion(v))
    decreases |log| - offset
  {
    var next := FrameBoundary(append, log, offset, running);
    if next.Ok? && next.value.Some? {
      NoVersionInFrames(append, log, next.value.value.0, next.value.value.1, v);
    }
  }
}
