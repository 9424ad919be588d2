/** Which logical pulls the server accepts and which answers a client accepts, in terms of what was written. */
module LogPulls {
  import opened Common
  import opened Decimal
  import opened MvccLog
  import opened LogWriter
  import opened LogReplication

  // ---------------------------------------------------------------- the server

  predicate OccursAt(s: string, pat: string, i: nat) { i + |pat| <= |s| && s[i..i + |pat|] == pat }

  /** Splitting finds the first occurrence, and fails only when there is none. */
  lemma {:induction false} SplitsAtFirst(s: string, pat: string, from: nat)
    requires from <= |s| && |pat| > 0
    ensures match SplitOnce(s, pat, from)
            case None => forall i: nat :: i >= from ==> !OccursAt(s, pat, i)
            case Some((a, b)) => s == a + pat + b && |a| >= from && forall i: nat :: from <= i < |a| ==> !OccursAt(s, pat, i)
    decreases |s| - from
  {
    if OccursAt(s, pat, from) {
      assert s == s[..from] + pat + s[from + |pat|..];
    } else if from < |s| {
      SplitsAtFirst(s, pat, from + 1);
    }
  }

  /** A revision from before logical pulls. */
  ghost predicate Legacy(revision: string) { revision != "" && forall i: nat :: !OccursAt(revision, ":o", i) }

  /** The revision is `g`, a numeral for generation one, `:o`, and a numeral for `n`. */
  ghost predicate Names(revision: string, n: nat)
  {
    exists g, o :: revision == "g" + g + ":o" + o && ParseU64(g) == Some(1) && ParseU64(o) == Some(n)
  }

  lemma NumeralChars(g: string)
    requires ParseU64(g).Some?
    ensures forall k :: 0 <= k < |g| ==> g[k] != ':'
  {
    var digits := if g != "" && g[0] == '+' then g[1..] else g;
    var off := |g| - |digits|;
    forall k | 0 <= k < |g| ensures g[k] != ':' {
      assert k >= off ==> g[k] == digits[k - off] && IsDigit(digits[k - off]);
    }
  }

  lemma NoMarkInNumeral(g: string, rest: string, i: nat)
    requires ParseU64(g).Some? && i < |g| + 1
    ensures !OccursAt("g" + g + ":o" + rest, ":o", i)
  {
    hide ParseU64;
    var s := "g" + g + ":o" + rest;
    NumeralChars(g);
    assert s[i] == if i == 0 then 'g' else g[i - 1];
    assert s[i..i + 2][0] == s[i];
  }

  /** What a revision means to the server: nothing held, a legacy client, an offset of generation one, or nonsense. */
  lemma RevisionMeans(revision: string, legacyDefault: uint64)
    ensures RevisionOffset("", legacyDefault) == Some(0)
    ensures Legacy(revision) ==> RevisionOffset(revision, legacyDefault) == Some(legacyDefault)
    ensures forall n: uint64 :: Names(revision, n) ==> RevisionOffset(revision, legacyDefault) == Some(n)
    ensures revision != "" && !Legacy(revision) && RevisionOffset(revision, legacyDefault).Some? ==>
              Names(revision, RevisionOffset(revision, legacyDefault).value)
  {
    hide ParseU64;
    SplitsAtFirst(revision, ":o", 0);
    var split := SplitOnce(revision, ":o");
    forall n: uint64 | Names(revision, n)
      ensures RevisionOffset(revision, legacyDefault) == Some(n)
    {
      var g, o :| revision == "g" + g + ":o" + o && ParseU64(g) == Some(1) && ParseU64(o) == Some(n);
      assert OccursAt(revision, ":o", |g| + 1) by {
        assert revision[|g| + 1..|g| + 3] == ":o";
      }
      forall i: nat | i < |g| + 1 ensures !OccursAt(revision, ":o", i) {
        NoMarkInNumeral(g, o, i);
      }
      var (a, b) := split.value;
      assert OccursAt(revision, ":o", |a|) by {
        assert revision[|a|..|a| + 2] == ":o";
      }
      assert |a| == |g| + 1;
      assert a == revision[..|a|] == "g" + g && b == revision[|a| + 2..] == o;
      assert a[1..] == g;
    }
    if split.Some? {
      var (a, b) := split.value;
      assert OccursAt(revision, ":o", |a|) by {
        assert revision[|a|..|a| + 2] == ":o";
      }
      if RevisionOffset(revision, legacyDefault).Some? && revision != "" {
        assert a == "g" + a[1..];
        assert revision == "g" + a[1..] + ":o" + b;
      }
    }
  }

  /** The CRC lookup succeeds exactly at boundaries. */
  lemma {:induction false} SeedIffBoundary(bs: seq<Boundary>, offset: nat)
    ensures CrcSeedAt(bs, offset).Some? <==> exists i :: 0 <= i < |bs| && bs[i].0 == offset
  {
    if bs != [] {
      SeedIffBoundary(bs[1..], offset);
      assert (exists i :: 0 <= i < |bs| && bs[i].0 == offset) <==>
             bs[0].0 == offset || exists i :: 0 <= i < |bs[1..]| && bs[1..][i].0 == offset by {
        if i :| 0 <= i < |bs| && bs[i].0 == offset && i > 0 {
          assert bs[1..][i - 1].0 == offset;
        }
        if i :| 0 <= i < |bs[1..]| && bs[1..][i].0 == offset {
          assert bs[i + 1].0 == offset;
        }
      }
    }
  }

  /** The revision stands for the start of the log or for a boundary of it. */
  ghost predicate NamesBoundary(revision: string, bs: seq<Boundary>)
  {
    Names(revision, 0) || exists i :: 0 <= i < |bs| && Names(revision, bs[i].0)
  }

  /** A pull from a log that scans is accepted exactly for an empty or legacy revision, or one that names a boundary in generation one. */
  lemma PullAcceptedIff(append: CrcAppend, log: seq<byte>, revision: string)
    requires |log| <= USIZE_MAX && Scan(append, log).Ok?
    ensures HandleLogicalPull(append, log, revision).Ok?
       <==> revision == "" || Legacy(revision) || NamesBoundary(revision, Scan(append, log).value.crcByOffset)
    ensures Legacy(revision) ==>
              HandleLogicalPull(append, log, revision) == Ok(Response(Revision(Scan(append, log).value.endOffset), None, []))
  {
    hide Scan, RevisionOffset, CrcSeedAt, ParseU64, Legacy;
    var s := Scan(append, log).value;
    RevisionMeans(revision, s.endOffset);
    BoundariesInside(append, log);
    if revision != "" && !Legacy(revision) {
      if RevisionOffset(revision, s.endOffset).Some? {
        var n := RevisionOffset(revision, s.endOffset).value;
        SeedIffBoundary(s.crcByOffset, n);
        if HandleLogicalPull(append, log, revision).Ok? && n != 0 {
          var last := |s.crcByOffset| - 1;
          assert n == s.endOffset ==> Names(revision, s.crcByOffset[last].0);
        }
        if NamesBoundary(revision, s.crcByOffset) && !Names(revision, 0) {
          var i :| 0 <= i < |s.crcByOffset| && Names(revision, s.crcByOffset[i].0);
          assert n == s.crcByOffset[i].0;
        }
      } else {
        assert !Names(revision, 0);
        forall i | 0 <= i < |s.crcByOffset| ensures !Names(revision, s.crcByOffset[i].0) {
        }
      }
    }
  }

  /** A refused pull says what is wrong: a revision that means nothing, one past the end, or one between boundaries. */
  lemma PullRefusedHow(append: CrcAppend, log: seq<byte>, revision: string)
    requires |log| <= USIZE_MAX && Scan(append, log).Ok?
    ensures var (r, s) := (HandleLogicalPull(append, log, revision), Scan(append, log).value);
            && (r == Err(BadRevision) <==> revision != "" && !Legacy(revision) && forall n: uint64 :: !Names(revision, n))
            && (r == Err(FromTheFuture) <==> exists n: uint64 :: n > s.endOffset && Names(revision, n))
            && (r == Err(NotABoundary) <==> exists n: uint64 ::
                  0 < n < s.endOffset && Names(revision, n) && forall i :: 0 <= i < |s.crcByOffset| ==> s.crcByOffset[i].0 != n)
  {
    hide Scan, RevisionOffset, CrcSeedAt, ParseU64, Legacy, Names;
    var s := Scan(append, log).value;
    RevisionMeans(revision, s.endOffset);
    NamesNothing(revision);
    if revision != "" && !Legacy(revision) && RevisionOffset(revision, s.endOffset).Some? {
      var n := RevisionOffset(revision, s.endOffset).value;
      assert Names(revision, n);
      SeedIffBoundary(s.crcByOffset, n);
    }
  }

  lemma NamesNothing(revision: string)
    ensures revision == "" || Legacy(revision) ==> forall n: nat :: !Names(revision, n)
  {
    hide ParseU64;
    forall n: nat | Names(revision, n) ensures revision != "" && !Legacy(revision) {
      var g, o :| revision == "g" + g + ":o" + o && ParseU64(g) == Some(1) && ParseU64(o) == Some(n);
      assert revision[|g| + 1..|g| + 3] == ":o";
      assert OccursAt(revision, ":o", |g| + 1);
    }
  }

  lemma BoundariesInside(append: CrcAppend, log: seq<byte>)
    requires Scan(append, log).Ok?
    ensures var s := Scan(append, log).value;
            && s.crcByOffset != [] && s.crcByOffset[|s.crcByOffset| - 1].0 == s.endOffset <= |log|
            && forall i :: 0 <= i < |s.crcByOffset| ==> s.crcByOffset[i].0 <= s.endOffset
  {
    hide ValidateHeader, InitialCrc;
    if log != [] {
      BoundariesAscend(append, log);
    }
  }

  // ---------------------------------------------------------------- the client

  /** The transactions as sealed one after the other. */
  function SealedAll(append: CrcAppend, running: uint32, ts: seq<Transaction>): seq<FrameBytes>
    decreases |ts|
  {
    if ts == [] then [] else [Sealed(append, running, ts[0])] + SealedAll(append, SealCrc(append, running, ts[0]), ts[1..])
  }

  /** Chained frames are transactions sealed one after the other. */
  lemma {:induction false} ChainIsSealed(append: CrcAppend, running: uint32, fs: seq<FrameBytes>) returns (ts: seq<Transaction>)
    requires Chain(append, running, fs)
    ensures AllWritable(ts) && fs == SealedAll(append, running, ts)
    decreases |fs|
  {
    hide Sealed, Frame, SealCrc, FrameCrc;
    ts := [];
    if fs != [] {
      var t := FrameIsSealed(append, running, fs[0]);
      SealedIsFrame(append, running, t);
      var rest := ChainIsSealed(append, FrameCrc(fs[0]), fs[1..]);
      ts := [t] + rest;
      assert ts[1..] == rest && fs == [fs[0]] + fs[1..];
    }
  }

  lemma {:induction false} SealedChain(append: CrcAppend, running: uint32, ts: seq<Transaction>)
    requires AllWritable(ts)
    ensures Chain(append, running, SealedAll(append, running, ts)) && Concat(SealedAll(append, running, ts)) == Body(append, running, ts)
    decreases |ts|
  {
    hide Sealed, Frame, SealCrc, FrameCrc;
    if ts != [] {
      var f, crc := Sealed(append, running, ts[0]), SealCrc(append, running, ts[0]);
      SealedIsFrame(append, running, ts[0]);
      SealedChain(append, crc, ts[1..]);
      assert SealedAll(append, running, ts)[1..] == SealedAll(append, crc, ts[1..]);
    }
  }

  /** What a client may take from an answer: nothing, a written log from its header, or transactions sealed from the given seed. */
  ghost predicate Genuine(append: CrcAppend, r: Response, fs: seq<FrameBytes>)
  {
    match r.mvccLog
    case None => r.body == [] && fs == []
    case Some(range) =>
      && range.startOffset + |r.body| == range.endOffset
      && if range.startsWithHeader then WholeLog(append, r.body, fs)
         else exists crc: uint32 :: range.crcSeed == Some(LeBytes(crc, 4)) && SealedFrom(append, crc, r.body, fs)
  }

  ghost predicate WholeLog(append: CrcAppend, body: seq<byte>, fs: seq<FrameBytes>)
  {
    exists flags: byte, salt: uint64, ts :: flags <= 1 && AllWritable(ts)
      && body == Log(append, flags, salt, ts) && fs == SealedAll(append, SaltCrc(append, salt), ts)
  }

  ghost predicate SealedFrom(append: CrcAppend, crc: uint32, body: seq<byte>, fs: seq<FrameBytes>)
  {
    exists ts :: AllWritable(ts) && body == Body(append, crc, ts) && fs == SealedAll(append, crc, ts)
  }

  lemma DecodedIffSealed(append: CrcAppend, body: seq<byte>, pos: nat, crc: uint32, fs: seq<FrameBytes>)
    requires pos <= |body| <= USIZE_MAX
    ensures DecodeFrom(append, body, pos, crc) == Ok(fs) <==> SealedFrom(append, crc, body[pos..], fs)
  {
    hide Body, SealedAll, Chain, DecodeFrom, Concat, AllWritable;
    DecodeIffChain(append, body, pos, crc, fs);
    if DecodeFrom(append, body, pos, crc) == Ok(fs) {
      var ts := ChainIsSealed(append, crc, fs);
      SealedChain(append, crc, ts);
    }
    if SealedFrom(append, crc, body[pos..], fs) {
      var ts :| AllWritable(ts) && body[pos..] == Body(append, crc, ts) && fs == SealedAll(append, crc, ts);
      SealedChain(append, crc, ts);
    }
  }

  lemma HeaderRangeIff(append: CrcAppend, body: seq<byte>, fs: seq<FrameBytes>)
    requires |body| <= USIZE_MAX
    ensures WholeLog(append, body, fs)
       <==> |body| >= 56 && ValidateHeader(append, body).Ok? && DecodeFrom(append, body, 56, InitialCrc(append, body)) == Ok(fs)
  {
    hide ValidateHeader, InitialCrc, DecodeFrom, Body, SealedAll, Header, AllWritable, SaltCrc;
    if WholeLog(append, body, fs) {
      var flags: byte, salt: uint64, ts :| flags <= 1 && AllWritable(ts)
        && body == Log(append, flags, salt, ts) && fs == SealedAll(append, SaltCrc(append, salt), ts);
      assert body[..56] == Header(append, flags, salt) && body[56..] == Body(append, SaltCrc(append, salt), ts);
      WrittenHeaderAccepted(append, flags, salt, body);
      DecodedIffSealed(append, body, 56, SaltCrc(append, salt), fs);
    }
    if |body| >= 56 && ValidateHeader(append, body).Ok? && DecodeFrom(append, body, 56, InitialCrc(append, body)) == Ok(fs) {
      var flags, salt := AcceptedHeaderIsWritten(append, body);
      WrittenHeaderAccepted(append, flags, salt, body);
      DecodedIffSealed(append, body, 56, SaltCrc(append, salt), fs);
      var ts :| AllWritable(ts) && body[56..] == Body(append, SaltCrc(append, salt), ts) && fs == SealedAll(append, SaltCrc(append, salt), ts);
      assert body == body[..56] + body[56..];
      assert body == Log(append, flags, salt, ts);
    }
  }

  lemma SeedIff(seed: seq<byte>, crc: uint32)
    ensures seed == LeBytes(crc, 4) <==> |seed| == 4 && U32Le(seed, 0) == crc
  {
    hide LeNat, LeBytes;
    Powers();
    LeRoundTrip(crc, 4);
    if |seed| == 4 {
      assert seed[0..0 + 4] == seed;
      LeUnique(seed);
    }
  }

  /** A client accepts exactly genuine answers, with exactly the transactions in them. */
  lemma ClientAcceptsIff(append: CrcAppend, r: Response, fs: seq<FrameBytes>)
    requires |r.body| <= USIZE_MAX
    ensures DecodeResponse(append, r) == Ok(fs) <==> Genuine(append, r, fs)
  {
    hide ValidateHeader, InitialCrc, DecodeFrom, WholeLog, SealedFrom, LeBytes, U32Le;
    if r.mvccLog.Some? {
      var range := r.mvccLog.value;
      if range.startsWithHeader {
        HeaderRangeIff(append, r.body, fs);
      } else if range.crcSeed.Some? {
        var seed := range.crcSeed.value;
        assert r.body[0..] == r.body;
        if |seed| == 4 {
          SeedIff(seed, U32Le(seed, 0));
          DecodedIffSealed(append, r.body, 0, U32Le(seed, 0), fs);
        }
        forall crc: uint32 | seed == LeBytes(crc, 4) ensures |seed| == 4 && U32Le(seed, 0) == crc {
          SeedIff(seed, crc);
        }
      }
    }
  }
}
