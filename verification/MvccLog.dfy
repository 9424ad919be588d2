/**
 The MVCC logical log as the sync server reads it: a 56-byte header followed by
 transaction frames whose trailers carry a running CRC. The server's scanner
 tolerates a torn tail; the client's range decoder does not. Both are tied to one
 slice-level definition of a frame.
 */
module MvccLog {
  import opened Common

  const LOG_MAGIC: uint32 := 0x4C4D4C32
  const LOG_VERSION: byte := 3
  const LOG_HEADER_SIZE: nat := 56
  const SALT_START: nat := 8
  const SALT_END: nat := 16
  const RESERVED_START: nat := 16
  const HEADER_CRC_START: nat := 52
  const TX_MAGIC: uint32 := 0x5854564D
  const TX_EXT_MAGIC: uint32 := 0x5845564D
  const TX_END_MAGIC: uint32 := 0x4554564D
  const TX_HEADER_SIZE: nat := 24
  const TX_EXT_HEADER_SIZE: nat := 40
  const TX_TRAILER_SIZE: nat := 8

  // `crc32c_append`; nothing below depends on which function it is.
  type CrcAppend = (uint32, seq<byte>) -> uint32

  datatype LogError =
    | TruncatedHeader | BadMagic | UnsupportedVersion(version: byte) | BadHeaderFlags
    | BadHeaderLength | ReservedNotZero | HeaderChecksum
    | BadFrameMagic(offset: nat) | BadFrameFlags(offset: nat) | CountWithoutExtension(offset: nat)
    | ExtensionWithoutFlag(offset: nat) | OffsetOverflow | FrameChecksum(offset: nat) | BadEndMagic(offset: nat)
    | TruncatedFrame

  function Pow256(n: nat): nat
  {
    if n == 0 then 1 else 0x100 * Pow256(n - 1)
  }

  /** The little-endian value of a byte string. */
  function LeNat(b: seq<byte>): (v: nat)
    ensures v < Pow256(|b|)
  {
    if b == [] then 0 else b[0] as nat + 0x100 * LeNat(b[1..])
  }

  function U32Le(b: seq<byte>, i: nat): uint32
    requires i + 4 <= |b|
  {
    assert Pow256(4) == 0x1_0000_0000;
    LeNat(b[i..i + 4])
  }

  function U64Le(b: seq<byte>, i: nat): uint64
    requires i + 8 <= |b|
  {
    assert Pow256(8) == 0x1_0000_0000_0000_0000;
    LeNat(b[i..i + 8])
  }

  /** `to_le_bytes` on the wire: the CRC seed of a resumed range. */
  function U32LeBytes(n: uint32): (b: seq<byte>)
  {
    [n % 0x100, n / 0x100 % 0x100, n / 0x100 / 0x100 % 0x100, n / 0x100 / 0x100 / 0x100]
  }

  lemma SeedRoundTrip(n: uint32)
    ensures |U32LeBytes(n)| == 4 && U32Le(U32LeBytes(n), 0) == n
  {
    var b := U32LeBytes(n);
    assert b[0..0 + 4] == b && b[1..] == b[1..4] && b[1..][1..] == b[2..] && b[2..][1..] == b[3..] && b[3..][1..] == [];
    assert LeNat(b[3..]) == b[3] as nat;
    assert LeNat(b[2..]) == b[2] as nat + 0x100 * b[3] as nat;
    assert LeNat(b[1..]) == b[1] as nat + 0x100 * LeNat(b[2..]);
    assert LeNat(b) == b[0] as nat + 0x100 * LeNat(b[1..]);
  }

  // ---------------------------------------------------------------- header

  function ValidateHeader(append: CrcAppend, log: seq<byte>): Result<(), LogError>
    requires |log| >= LOG_HEADER_SIZE
  {
    if U32Le(log, 0) != LOG_MAGIC then Err(BadMagic)
    else if log[4] != LOG_VERSION then Err(UnsupportedVersion(log[4]))
    else if log[5] > 1 then Err(BadHeaderFlags)
    else if log[6] as int + 0x100 * log[7] as int != LOG_HEADER_SIZE then Err(BadHeaderLength)
    else if exists i :: RESERVED_START <= i < HEADER_CRC_START && log[i] != 0 then Err(ReservedNotZero)
    else if U32Le(log, HEADER_CRC_START) != append(0, log[..HEADER_CRC_START] + [0, 0, 0, 0]) then Err(HeaderChecksum)
    else Ok(())
  }

  function InitialCrc(append: CrcAppend, log: seq<byte>): uint32
    requires |log| >= LOG_HEADER_SIZE
  {
    append(0, log[SALT_START..SALT_END])
  }

  // ---------------------------------------------------------------- frames

  /** The end a frame at `offset` announces; `None` when its header and trailer cannot both be present. */
  function FrameExtent(log: seq<byte>, offset: nat): (r: Result<Option<nat>, LogError>)
    requires offset <= |log|
    ensures r.Ok? && r.value.Some? ==> r.value.value >= offset + TX_HEADER_SIZE + TX_TRAILER_SIZE
  {
    if |log| - offset < TX_HEADER_SIZE + TX_TRAILER_SIZE then Ok(None)
    else
      var magic := U32Le(log, offset);
      var ext := magic == TX_EXT_MAGIC;
      if magic != TX_MAGIC && !ext then Err(BadFrameMagic(offset))
      else
        var headerSize := if ext then TX_EXT_HEADER_SIZE else TX_HEADER_SIZE;
        if |log| - offset < headerSize + TX_TRAILER_SIZE then Ok(None)
        else
          var payloadSize := U64Le(log, offset + 4);
          var extensionSize := if ext then U64Le(log, offset + 24) else 0;
          if ext && U32Le(log, offset + 36) > 1 then Err(BadFrameFlags(offset))
          else if ext && extensionSize == 0 && U32Le(log, offset + 32) != 0 then Err(CountWithoutExtension(offset))
          else if ext && extensionSize > 0 && U32Le(log, offset + 36) % 2 == 0 then Err(ExtensionWithoutFlag(offset))
          else
            var end := offset + headerSize + payloadSize + extensionSize + TX_TRAILER_SIZE;
            if end > USIZE_MAX then Err(OffsetOverflow) else Ok(Some(end))
  }

  /** The next frame boundary at `offset`, `None` when the remaining bytes are a torn tail. */
  function FrameBoundary(append: CrcAppend, log: seq<byte>, offset: nat, running: uint32)
    : (r: Result<Option<(nat, uint32)>, LogError>)
    requires offset <= |log|
    ensures r.Ok? && r.value.Some? ==> offset < r.value.value.0 <= |log|
  {
    match FrameExtent(log, offset)
    case Err(e) => Err(e)
    case Ok(None) => Ok(None)
    case Ok(Some(end)) =>
      if end > |log| then Ok(None)
      else if U32Le(log, end - 8) != append(running, log[offset..end - 8]) then Err(FrameChecksum(offset))
      else if U32Le(log, end - 4) != TX_END_MAGIC then Err(BadEndMagic(offset))
      else Ok(Some((end, U32Le(log, end - 8))))
  }

  /** The fixed-size part of a frame is present and passes the header checks. */
  predicate FrameHeaderOk(f: seq<byte>)
  {
    && |f| >= TX_HEADER_SIZE + TX_TRAILER_SIZE
    && (U32Le(f, 0) == TX_MAGIC || U32Le(f, 0) == TX_EXT_MAGIC)
    && (U32Le(f, 0) == TX_EXT_MAGIC ==>
          && |f| >= TX_EXT_HEADER_SIZE + TX_TRAILER_SIZE
          && U32Le(f, 36) <= 1
          && (U64Le(f, 24) == 0 ==> U32Le(f, 32) == 0)
          && (U64Le(f, 24) > 0 ==> U32Le(f, 36) == 1))
  }

  /** The length a frame announces in its header. */
  function FrameLen(f: seq<byte>): (n: nat)
    requires FrameHeaderOk(f)
  {
    (if U32Le(f, 0) == TX_EXT_MAGIC then TX_EXT_HEADER_SIZE + U64Le(f, 24) else TX_HEADER_SIZE)
    + U64Le(f, 4) + TX_TRAILER_SIZE
  }

  /** `f` is one whole frame that follows a log whose running CRC is `running`. */
  predicate Frame(append: CrcAppend, running: uint32, f: seq<byte>): (whole: bool)
    ensures whole ==> |f| >= TX_HEADER_SIZE + TX_TRAILER_SIZE
  {
    && FrameHeaderOk(f)
    && |f| == FrameLen(f)
    && U32Le(f, |f| - 8) == append(running, f[..|f| - 8])
    && U32Le(f, |f| - 4) == TX_END_MAGIC
  }

  function FrameCrc(f: seq<byte>): uint32
    requires |f| >= 8
  {
    U32Le(f, |f| - 8)
  }

  lemma SliceOfSlice<T>(b: seq<T>, lo: nat, hi: nat, i: nat, j: nat)
    requires lo <= hi <= |b| && i <= j <= hi - lo
    ensures b[lo..hi][i..j] == b[lo + i..lo + j]
  {
    var s, t := b[lo..hi][i..j], b[lo + i..lo + j];
    assert forall k :: 0 <= k < |s| ==> s[k] == b[lo..hi][i + k];
    assert forall k :: 0 <= k < |t| ==> t[k] == b[lo + i + k];
  }

  lemma WordsOfSlice(b: seq<byte>, lo: nat, hi: nat)
    requires lo <= hi <= |b|
    ensures forall i: nat :: i + 4 <= hi - lo ==> U32Le(b[lo..hi], i) == U32Le(b, lo + i)
    ensures forall i: nat :: i + 8 <= hi - lo ==> U64Le(b[lo..hi], i) == U64Le(b, lo + i)
  {
    forall i: nat | i + 4 <= hi - lo ensures U32Le(b[lo..hi], i) == U32Le(b, lo + i) {
      SliceOfSlice(b, lo, hi, i, i + 4);
    }
    forall i: nat | i + 8 <= hi - lo ensures U64Le(b[lo..hi], i) == U64Le(b, lo + i) {
      SliceOfSlice(b, lo, hi, i, i + 8);
    }
  }

  /** The scanner reports a boundary exactly when the bytes up to it are one whole frame. */
  lemma BoundaryIffFrame(append: CrcAppend, log: seq<byte>, offset: nat, running: uint32, end: nat, c: uint32)
    requires offset <= |log| <= USIZE_MAX
    ensures FrameBoundary(append, log, offset, running) == Ok(Some((end, c)))
       <==> offset <= end <= |log| && Frame(append, running, log[offset..end]) && c == FrameCrc(log[offset..end])
  {
    hide LeNat;
    if offset <= end <= |log| {
      var f := log[offset..end];
      WordsOfSlice(log, offset, end);
      if |f| >= 8 {
        assert f[..|f| - 8] == log[offset..end - 8];
      }
    }
  }

  // ---------------------------------------------------------------- scanner

  type Boundary = (nat, uint32)

  datatype Snapshot = Snapshot(endOffset: nat, crcByOffset: seq<Boundary>)

  /** The boundaries after `offset`, in order. */
  function ScanFrom(append: CrcAppend, log: seq<byte>, offset: nat, running: uint32): (r: Result<seq<Boundary>, LogError>)
    requires offset <= |log|
    ensures r.Ok? ==> offset <= EndOf(offset, r.value) <= |log|
    decreases |log| - offset
  {
    match FrameBoundary(append, log, offset, running)
    case Err(e) => Err(e)
    case Ok(None) => Ok([])
    case Ok(Some(b)) =>
      match ScanFrom(append, log, b.0, b.1)
      case Err(e) => Err(e)
      case Ok(bs) => Ok([b] + bs)
  }

  function EndOf(offset: nat, bs: seq<Boundary>): nat
  {
    if bs == [] then offset else bs[|bs| - 1].0
  }

  function Scan(append: CrcAppend, log: seq<byte>): (r: Result<Snapshot, LogError>)
    ensures r.Ok? ==> r.value.endOffset <= |log| && (log != [] ==> LOG_HEADER_SIZE <= r.value.endOffset)
  {
    if log == [] then Ok(Snapshot(0, [(0, 0)]))
    else if |log| < LOG_HEADER_SIZE then Err(TruncatedHeader)
    else
      match ValidateHeader(append, log)
      case Err(e) => Err(e)
      case Ok(_) =>
        match ScanFrom(append, log, LOG_HEADER_SIZE, InitialCrc(append, log))
        case Err(e) => Err(e)
        case Ok(bs) =>
          Ok(Snapshot(EndOf(LOG_HEADER_SIZE, bs), [(LOG_HEADER_SIZE, InitialCrc(append, log))] + bs))
  }

  /** The server's scan loop. */
  method ScanMvccLog(append: CrcAppend, log: seq<byte>) returns (r: Result<Snapshot, LogError>)
    ensures r == Scan(append, log)
  {
    hide ValidateHeader, FrameBoundary, InitialCrc;
    if log == [] {
      return Ok(Snapshot(0, [(0, 0)]));
    }
    if |log| < LOG_HEADER_SIZE {
      return Err(TruncatedHeader);
    }
    var header := ValidateHeader(append, log);
    if header.Err? {
      return Err(header.error);
    }
    var running := InitialCrc(append, log);
    var offset := LOG_HEADER_SIZE;
    var crcByOffset: seq<Boundary> := [(LOG_HEADER_SIZE, running)];
    assert crcByOffset[1..] == [];
    PrependNothing(ScanFrom(append, log, offset, running));
    while offset < |log|
      invariant LOG_HEADER_SIZE <= offset <= |log|
      invariant |crcByOffset| >= 1 && crcByOffset[0] == (LOG_HEADER_SIZE, InitialCrc(append, log))
      invariant crcByOffset[|crcByOffset| - 1] == (offset, running)
      invariant Prepend(crcByOffset[1..], ScanFrom(append, log, offset, running))
             == ScanFrom(append, log, LOG_HEADER_SIZE, InitialCrc(append, log))
    {
      var next := FrameBoundary(append, log, offset, running);
      if next.Err? {
        return Err(next.error);
      }
      if next.value.None? {
        break;
      }
      assert crcByOffset[1..] + [next.value.value] == (crcByOffset + [next.value.value])[1..];
      PrependTwice(crcByOffset[1..], [next.value.value], ScanFrom(append, log, next.value.value.0, next.value.value.1));
      offset, running := next.value.value.0, next.value.value.1;
      crcByOffset := crcByOffset + [(offset, running)];
    }
    TornAtEnd(append, log, running);
    assert ScanFrom(append, log, offset, running) == Ok([]);
    assert crcByOffset[1..] + [] == crcByOffset[1..];
    assert [crcByOffset[0]] + crcByOffset[1..] == crcByOffset;
    r := Ok(Snapshot(offset, crcByOffset));
  }

  lemma TornAtEnd(append: CrcAppend, log: seq<byte>, running: uint32)
    ensures FrameBoundary(append, log, |log|, running) == Ok(None)
  {
  }

  function Prepend<T, E>(xs: seq<T>, r: Result<seq<T>, E>): Result<seq<T>, E>
  {
    match r
    case Ok(ys) => Ok(xs + ys)
    case Err(e) => Err(e)
  }

  lemma PrependNothing<T, E>(r: Result<seq<T>, E>)
    ensures Prepend([], r) == r
  {
    if r.Ok? {
      assert [] + r.value == r.value;
    }
  }

  lemma PrependTwice<T, E>(xs: seq<T>, ys: seq<T>, r: Result<seq<T>, E>)
    ensures Prepend(xs, Prepend(ys, r)) == Prepend(xs + ys, r)
  {
    if r.Ok? {
      assert xs + (ys + r.value) == (xs + ys) + r.value;
    }
  }

  // ---------------------------------------------------------------- torn tails

  /** The boundaries at or below `k`. */
  function UpTo(bs: seq<Boundary>, k: nat): (r: seq<Boundary>)
  {
    if bs == [] then [] else (if bs[0].0 <= k then [bs[0]] else []) + UpTo(bs[1..], k)
  }

  lemma ExtentOfTruncation(log: seq<byte>, offset: nat, k: nat)
    requires offset <= k <= |log|
    requires FrameExtent(log, offset).Ok?
    ensures var t := FrameExtent(log[..k], offset);
            || t == FrameExtent(log, offset)
            || (t == Ok(None) && (FrameExtent(log, offset).value.Some? ==> FrameExtent(log, offset).value.value > k))
  {
    WordsOfSlice(log, 0, k);
    assert log[0..k] == log[..k];
  }

  lemma BoundaryOfTruncation(append: CrcAppend, log: seq<byte>, offset: nat, running: uint32, k: nat)
    requires offset <= k <= |log|
    requires FrameBoundary(append, log, offset, running).Ok?
    ensures var r := FrameBoundary(append, log, offset, running).value;
            FrameBoundary(append, log[..k], offset, running) == Ok(if r.Some? && r.value.0 <= k then r else None)
  {
    ExtentOfTruncation(log, offset, k);
    var r := FrameBoundary(append, log, offset, running).value;
    if r.Some? && r.value.0 <= k {
      var end := r.value.0;
      assert log[..k][offset..end - 8] == log[offset..end - 8];
      WordsOfSlice(log, 0, k);
      assert log[0..k] == log[..k];
    }
  }

  lemma {:induction false} ScanFromAscends(append: CrcAppend, log: seq<byte>, offset: nat, running: uint32)
    requires offset <= |log|
    requires ScanFrom(append, log, offset, running).Ok?
    ensures var bs := ScanFrom(append, log, offset, running).value;
            && (forall i :: 0 <= i < |bs| ==> offset < bs[i].0 <= |log|)
            && (forall i, j :: 0 <= i < j < |bs| ==> bs[i].0 < bs[j].0)
    decreases |log| - offset
  {
    hide FrameBoundary;
    var r := FrameBoundary(append, log, offset, running).value;
    if r.Some? {
      ScanFromAscends(append, log, r.value.0, r.value.1);
    }
  }

  lemma {:induction false} UpToBelow(bs: seq<Boundary>, k: nat)
    requires forall i :: 0 <= i < |bs| ==> bs[i].0 > k
    ensures UpTo(bs, k) == []
  {
    if bs != [] {
      UpToBelow(bs[1..], k);
    }
  }

  lemma {:induction false} ScanFromTruncation(append: CrcAppend, log: seq<byte>, offset: nat, running: uint32, k: nat)
    requires offset <= k <= |log|
    requires ScanFrom(append, log, offset, running).Ok?
    ensures ScanFrom(append, log[..k], offset, running) == Ok(UpTo(ScanFrom(append, log, offset, running).value, k))
    decreases |log| - offset
  {
    BoundaryOfTruncation(append, log, offset, running, k);
    var r := FrameBoundary(append, log, offset, running).value;
    if r.Some? {
      var rest := ScanFrom(append, log, r.value.0, r.value.1).value;
      assert ([r.value] + rest)[1..] == rest;
      if r.value.0 <= k {
        ScanFromTruncation(append, log, r.value.0, r.value.1, k);
      } else {
        ScanFromAscends(append, log, r.value.0, r.value.1);
        UpToBelow([r.value] + rest, k);
      }
    }
  }

  /**
   A torn tail never yields an error or a false boundary: of the truncations of a log
   that scans, exactly those that cut inside the header fail, and every other one
   reports the original boundaries that still fit.
   */
  lemma TruncationScans(append: CrcAppend, log: seq<byte>, k: nat)
    requires Scan(append, log).Ok? && k <= |log|
    ensures Scan(append, log[..k]).Ok? <==> k == 0 || k >= LOG_HEADER_SIZE
    ensures k >= LOG_HEADER_SIZE ==>
              var bs := UpTo(Scan(append, log).value.crcByOffset, k);
              bs != [] && Scan(append, log[..k]) == Ok(Snapshot(bs[|bs| - 1].0, bs))
  {
    hide ScanFrom, LeNat;
    if k >= LOG_HEADER_SIZE {
      var t := log[..k];
      WordsOfSlice(log, 0, k);
      assert log[0..k] == t;
      assert t[..HEADER_CRC_START] == log[..HEADER_CRC_START];
      assert t[SALT_START..SALT_END] == log[SALT_START..SALT_END];
      assert forall i :: RESERVED_START <= i < HEADER_CRC_START ==> t[i] == log[i];
      assert ValidateHeader(append, t) == ValidateHeader(append, log);
      var c := InitialCrc(append, log);
      ScanFromTruncation(append, log, LOG_HEADER_SIZE, c, k);
      var bs := Scan(append, log).value.crcByOffset;
      assert bs[1..] == ScanFrom(append, log, LOG_HEADER_SIZE, c).value;
    }
  }
}
