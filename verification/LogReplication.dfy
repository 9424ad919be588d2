/**
 Logical pulls of the MVCC log as a protocol: a server whose log tail keeps changing,
 and clients that resume from the revision they were last given. The client side is the
 sync engine's strict range decoder.
 */
module LogReplication {
  import opened Common
  import opened Decimal
  import opened MvccLog

  // ---------------------------------------------------------------- chains of frames

  type FrameBytes = seq<byte>

  /** Whole frames that follow one another from running CRC `running`. */
  predicate Chain(append: CrcAppend, running: uint32, fs: seq<FrameBytes>)
    decreases |fs|
  {
    fs == [] || (Frame(append, running, fs[0]) && Chain(append, FrameCrc(fs[0]), fs[1..]))
  }

  function ChainCrc(append: CrcAppend, running: uint32, fs: seq<FrameBytes>): uint32
    requires Chain(append, running, fs)
    decreases |fs|
  {
    if fs == [] then running else ChainCrc(append, FrameCrc(fs[0]), fs[1..])
  }

  // ---------------------------------------------------------------- client decoder

  datatype ClientError = MissingMetadata | BadRange | MissingSeed | BadSeedLength | BadHeader | BadFrame(error: LogError)

  /** One frame of a received range. Unlike the server's scanner, an incomplete frame is an error. */
  function ReceivedFrame(append: CrcAppend, body: seq<byte>, pos: nat, running: uint32): (r: Result<Boundary, LogError>)
    requires pos <= |body|
    ensures r.Ok? ==> pos < r.value.0 <= |body|
  {
    match FrameExtent(body, pos)
    case Err(e) => Err(e)
    case Ok(None) => Err(TruncatedFrame)
    case Ok(Some(end)) =>
      if end > |body| then Err(TruncatedFrame)
      else if U32Le(body, end - 4) != TX_END_MAGIC then Err(BadEndMagic(pos))
      else if U32Le(body, end - 8) != append(running, body[pos..end - 8]) then Err(FrameChecksum(pos))
      else Ok((end, U32Le(body, end - 8)))
  }

  function DecodeFrom(append: CrcAppend, body: seq<byte>, pos: nat, running: uint32): Result<seq<FrameBytes>, LogError>
    requires pos <= |body|
    decreases |body| - pos
  {
    if pos == |body| then Ok([])
    else
      match ReceivedFrame(append, body, pos, running)
      case Err(e) => Err(e)
      case Ok(b) => Prepend([body[pos..b.0]], DecodeFrom(append, body, b.0, b.1))
  }

  /** The client's decode loop over one range. */
  method DecodeRange(append: CrcAppend, body: seq<byte>, start: nat, seed: uint32)
    returns (r: Result<seq<FrameBytes>, LogError>)
    requires start <= |body|
    ensures r == DecodeFrom(append, body, start, seed)
  {
    var pos, running, frames: seq<FrameBytes> := start, seed, [];
    PrependNothing(DecodeFrom(append, body, start, seed));
    while pos < |body|
      invariant pos <= |body|
      invariant Prepend(frames, DecodeFrom(append, body, pos, running)) == DecodeFrom(append, body, start, seed)
    {
      var next := ReceivedFrame(append, body, pos, running);
      if next.Err? {
        return Err(next.error);
      }
      PrependTwice(frames, [body[pos..next.value.0]], DecodeFrom(append, body, next.value.0, next.value.1));
      frames := frames + [body[pos..next.value.0]];
      pos, running := next.value.0, next.value.1;
    }
    assert frames + [] == frames;
    r := Ok(frames);
  }

  lemma {:induction false} DecodeSound(append: CrcAppend, body: seq<byte>, pos: nat, running: uint32)
    requires pos <= |body| <= USIZE_MAX
    requires DecodeFrom(append, body, pos, running).Ok?
    ensures var fs := DecodeFrom(append, body, pos, running).value;
            body[pos..] == Concat(fs) && Chain(append, running, fs)
    decreases |body| - pos
  {
    hide FrameExtent, FrameHeaderOk, FrameLen;
    if pos < |body| {
      var b := ReceivedFrame(append, body, pos, running).value;
      BoundaryIffFrame(append, body, pos, running, b.0, b.1);
      DecodeSound(append, body, b.0, b.1);
      var rest := DecodeFrom(append, body, b.0, b.1).value;
      assert ([body[pos..b.0]] + rest)[1..] == rest;
      assert body[pos..] == body[pos..b.0] + body[b.0..];
    }
  }

  lemma {:induction false} DecodeComplete(append: CrcAppend, body: seq<byte>, pos: nat, running: uint32, fs: seq<FrameBytes>)
    requires pos <= |body| <= USIZE_MAX
    requires body[pos..] == Concat(fs) && Chain(append, running, fs)
    ensures DecodeFrom(append, body, pos, running) == Ok(fs)
    decreases |fs|
  {
    hide FrameHeaderOk, FrameExtent, FrameLen;
    if fs != [] {
      var end := pos + |fs[0]|;
      assert body[pos..][..|fs[0]|] == fs[0] && body[pos..][|fs[0]|..] == Concat(fs[1..]);
      assert body[pos..end] == fs[0] && body[end..] == Concat(fs[1..]);
      BoundaryIffFrame(append, body, pos, running, end, FrameCrc(fs[0]));
      DecodeComplete(append, body, end, FrameCrc(fs[0]), fs[1..]);
      assert [fs[0]] + fs[1..] == fs;
    }
  }

  /** The strict decoder accepts exactly the concatenations of frame chains, and recovers the chain. */
  lemma DecodeIffChain(append: CrcAppend, body: seq<byte>, pos: nat, running: uint32, fs: seq<FrameBytes>)
    requires pos <= |body| <= USIZE_MAX
    ensures DecodeFrom(append, body, pos, running) == Ok(fs) <==> body[pos..] == Concat(fs) && Chain(append, running, fs)
  {
    if DecodeFrom(append, body, pos, running).Ok? {
      DecodeSound(append, body, pos, running);
    }
    if body[pos..] == Concat(fs) && Chain(append, running, fs) {
      DecodeComplete(append, body, pos, running, fs);
    }
  }

  // ---------------------------------------------------------------- server

  /** `str::split_once`. */
  function SplitOnce(s: string, pat: string, from: nat := 0): Option<(string, string)>
    requires from <= |s|
    decreases |s| - from
  {
    if from + |pat| <= |s| && s[from..from + |pat|] == pat then Some((s[..from], s[from + |pat|..]))
    else if from == |s| then None
    else SplitOnce(s, pat, from + 1)
  }

  /** The offset a client revision names; a revision without `:o` predates logical pulls. */
  function RevisionOffset(revision: string, legacyDefault: uint64): Option<uint64>
  {
    if revision == "" then Some(0)
    else
      match SplitOnce(revision, ":o")
      case None => Some(legacyDefault)
      case Some((generation, offset)) =>
        if generation == "" || generation[0] != 'g' || ParseU64(generation[1..]) != Some(1) then None
        else ParseU64(offset)
  }

  function Revision(offset: nat): string
  {
    "g1:o" + ToDecimal(offset)
  }

  function CrcSeedAt(bs: seq<Boundary>, offset: nat): Option<uint32>
  {
    if bs == [] then None else if bs[0].0 == offset then Some(bs[0].1) else CrcSeedAt(bs[1..], offset)
  }

  datatype Range = Range(startOffset: nat, endOffset: nat, startsWithHeader: bool, crcSeed: Option<seq<byte>>)

  datatype Response = Response(serverRevision: string, mvccLog: Option<Range>, body: seq<byte>)

  datatype PullError = ScanFailed(error: LogError) | NotPortable | BadRevision | FromTheFuture | NotABoundary

  function HandleLogicalPull(append: CrcAppend, log: seq<byte>, clientRevision: string): Result<Response, PullError>
    requires |log| <= USIZE_MAX
  {
    match Scan(append, log)
    case Err(UnsupportedVersion(_)) => Err(NotPortable)
    case Err(e) => Err(ScanFailed(e))
    case Ok(snapshot) =>
      var end := snapshot.endOffset;
      match RevisionOffset(clientRevision, end)
      case None => Err(BadRevision)
      case Some(start) =>
        if start > end then Err(FromTheFuture)
        else if start == end then Ok(Response(Revision(end), None, []))
        else if start == 0 then Ok(Response(Revision(end), Some(Range(0, end, true, None)), log[..end]))
        else
          match CrcSeedAt(snapshot.crcByOffset, start)
          case None => Err(NotABoundary)
          case Some(seed) =>
            Ok(Response(Revision(end), Some(Range(start, end, false, Some(U32LeBytes(seed)))), log[start..end]))
  }

  /** The server reads back the revision it handed out. */
  lemma RevisionRoundTrip(offset: uint64, legacyDefault: uint64)
    ensures RevisionOffset(Revision(offset), legacyDefault) == Some(offset)
  {
    var r := Revision(offset);
    assert r[0..2] == "g1" && r[1..3] == "1:" && r[2..4] == ":o";
    assert r[..2] == "g1" && r[4..] == ToDecimal(offset);
    assert SplitOnce(r, ":o") == SplitOnce(r, ":o", 1) == SplitOnce(r, ":o", 2) == Some(("g1", ToDecimal(offset)));
    assert "g1"[1..] == "1" == ToDecimal(1);
    ParseU64RoundTrip(1);
    ParseU64RoundTrip(offset);
  }

  // ---------------------------------------------------------------- client

  datatype Client = Client(held: seq<byte>, frames: seq<FrameBytes>, revision: string)

  function DecodeResponse(append: CrcAppend, r: Response): Result<seq<FrameBytes>, ClientError>
  {
    match r.mvccLog
    case None => if r.body == [] then Ok([]) else Err(MissingMetadata)
    case Some(range) =>
      if range.endOffset < range.startOffset || |r.body| != range.endOffset - range.startOffset then Err(BadRange)
      else if range.startsWithHeader then
        if |r.body| < LOG_HEADER_SIZE || ValidateHeader(append, r.body).Err? then Err(BadHeader)
        else Decoded(DecodeFrom(append, r.body, LOG_HEADER_SIZE, InitialCrc(append, r.body)))
      else if range.crcSeed.None? then Err(MissingSeed)
      else if |range.crcSeed.value| != 4 then Err(BadSeedLength)
      else Decoded(DecodeFrom(append, r.body, 0, U32Le(range.crcSeed.value, 0)))
  }

  function Decoded(r: Result<seq<FrameBytes>, LogError>): Result<seq<FrameBytes>, ClientError>
  {
    match r
    case Ok(fs) => Ok(fs)
    case Err(e) => Err(BadFrame(e))
  }

  /** A client appends what it decoded and remembers the revision; a rejected response changes nothing. */
  function Receive(append: CrcAppend, c: Client, r: Response): Client
  {
    match DecodeResponse(append, r)
    case Ok(fs) => Client(c.held + r.body, c.frames + fs, r.serverRevision)
    case Err(_) => c
  }

  // ---------------------------------------------------------------- runs

  /** `floor` is the last boundary the server has scanned: writers never touch the log below it. */
  datatype World = World(log: seq<byte>, floor: nat, clients: seq<Client>)

  datatype Step = Rewrite(log: seq<byte>) | Pull(client: nat)

  ghost predicate Enabled(w: World, step: Step)
  {
    match step
    case Rewrite(log) => w.floor <= |w.log| && w.log[..w.floor] <= log && |log| <= USIZE_MAX
    case Pull(i) => i < |w.clients| && |w.log| <= USIZE_MAX
  }

  ghost function Next(append: CrcAppend, w: World, step: Step): World
    requires Enabled(w, step)
  {
    match step
    case Rewrite(log) => w.(log := log)
    case Pull(i) =>
      var scanned := Scan(append, w.log);
      var floor := if scanned.Ok? then scanned.value.endOffset else w.floor;
      match HandleLogicalPull(append, w.log, w.clients[i].revision)
      case Err(_) => w.(floor := floor)
      case Ok(r) => w.(floor := floor, clients := w.clients[i := Receive(append, w.clients[i], r)])
  }

  ghost predicate Reachable(append: CrcAppend, w: World, steps: seq<Step>, w': World)
    decreases |steps|
  {
    if steps == [] then w == w'
    else Enabled(w, steps[0]) && Reachable(append, Next(append, w, steps[0]), steps[1..], w')
  }

  ghost predicate Initial(w: World)
  {
    && |w.log| <= USIZE_MAX
    && w.floor == 0
    && forall i :: 0 <= i < |w.clients| ==> w.clients[i] == Client([], [], "")
  }

  /** The bytes end exactly at a transaction boundary (or are empty). */
  ghost predicate Whole(append: CrcAppend, b: seq<byte>)
  {
    b == [] || (Scan(append, b).Ok? && Scan(append, b).value.endOffset == |b|)
  }

  ghost function RunningCrc(append: CrcAppend, b: seq<byte>): uint32
    requires Scan(append, b).Ok?
  {
    var bs := Scan(append, b).value.crcByOffset;
    bs[|bs| - 1].1
  }

  /** The transactions in a log that ends at a boundary. */
  ghost function Transactions(append: CrcAppend, b: seq<byte>): Result<seq<FrameBytes>, LogError>
  {
    if |b| < LOG_HEADER_SIZE then Ok([]) else DecodeFrom(append, b, LOG_HEADER_SIZE, InitialCrc(append, b))
  }

  ghost predicate InSync(append: CrcAppend, w: World, c: Client)
    requires w.floor <= |w.log|
  {
    && c.held <= w.log[..w.floor]
    && Whole(append, c.held)
    && Transactions(append, c.held) == Ok(c.frames)
    && (c.revision == Revision(|c.held|) || (c.held == [] && c.revision == ""))
  }

  ghost predicate Inv(append: CrcAppend, w: World)
  {
    && w.floor <= |w.log| <= USIZE_MAX
    && Whole(append, w.log[..w.floor])
    && forall i :: 0 <= i < |w.clients| ==> InSync(append, w, w.clients[i])
  }

  // ---------------------------------------------------------------- scanned logs

  lemma {:induction false} UpToIsPrefix(bs: seq<Boundary>, k: nat)
    requires forall i, j :: 0 <= i < j < |bs| ==> bs[i].0 < bs[j].0
    ensures UpTo(bs, k) <= bs
    ensures (forall i :: 0 <= i < |bs| ==> bs[i].0 <= k) ==> UpTo(bs, k) == bs
  {
    if bs != [] {
      if bs[0].0 <= k {
        UpToIsPrefix(bs[1..], k);
        assert [bs[0]] + bs[1..] == bs;
      } else {
        UpToBelow(bs, k);
      }
    }
  }

  lemma BoundariesAscend(append: CrcAppend, log: seq<byte>)
    requires Scan(append, log).Ok?
    ensures var bs := Scan(append, log).value.crcByOffset;
            && bs != [] && bs[|bs| - 1].0 == Scan(append, log).value.endOffset
            && forall i, j :: 0 <= i < j < |bs| ==> bs[i].0 < bs[j].0
  {
    if log != [] {
      ScanFromAscends(append, log, LOG_HEADER_SIZE, InitialCrc(append, log));
    }
  }

  /** What has been scanned ends at a boundary. */
  lemma ScannedIsWhole(append: CrcAppend, log: seq<byte>)
    requires Scan(append, log).Ok?
    ensures Scan(append, log).value.endOffset <= |log|
    ensures Whole(append, log[..Scan(append, log).value.endOffset])
  {
    hide ScanFrom, ValidateHeader, InitialCrc, UpTo;
    if log != [] {
      BoundariesAscend(append, log);
      var snapshot := Scan(append, log).value;
      TruncationScans(append, log, snapshot.endOffset);
      UpToIsPrefix(snapshot.crcByOffset, snapshot.endOffset);
    }
  }

  /** A whole prefix of a log that scans ends at one of its boundaries, with the same running CRC. */
  lemma PrefixIsBoundary(append: CrcAppend, log: seq<byte>, held: seq<byte>) returns (i: nat)
    requires Scan(append, log).Ok? && held <= log && held != [] && Whole(append, held)
    ensures var bs := Scan(append, log).value.crcByOffset;
            && i < |bs| && bs[i] == (|held|, RunningCrc(append, held))
            && Scan(append, held).value.crcByOffset == bs[..i + 1]
  {
    hide ScanFrom, ValidateHeader, InitialCrc, UpTo;
    assert log[..|held|] == held;
    TruncationScans(append, log, |held|);
    BoundariesAscend(append, log);
    var bs := Scan(append, log).value.crcByOffset;
    UpToIsPrefix(bs, |held|);
    i := |UpTo(bs, |held|)| - 1;
  }

  lemma {:induction false} SeedFound(bs: seq<Boundary>, i: nat)
    requires i < |bs| && forall i, j :: 0 <= i < j < |bs| ==> bs[i].0 < bs[j].0
    ensures CrcSeedAt(bs, bs[i].0) == Some(bs[i].1)
  {
    if i > 0 {
      SeedFound(bs[1..], i - 1);
    }
  }

  lemma {:induction false} ScanResumes(append: CrcAppend, log: seq<byte>, offset: nat, running: uint32, i: nat)
    requires offset <= |log| && ScanFrom(append, log, offset, running).Ok?
    requires i < |ScanFrom(append, log, offset, running).value|
    ensures var bs := ScanFrom(append, log, offset, running).value;
            bs[i].0 <= |log| && ScanFrom(append, log, bs[i].0, bs[i].1) == Ok(bs[i + 1..])
    decreases i
  {
    var b := FrameBoundary(append, log, offset, running).value.value;
    var bs := ScanFrom(append, log, offset, running).value;
    assert bs[1..] == ScanFrom(append, log, b.0, b.1).value;
    if i > 0 {
      ScanResumes(append, log, b.0, b.1, i - 1);
      assert bs[1..][i..] == bs[i + 1..];
    }
  }

  // ---------------------------------------------------------------- from boundaries to frames

  /** The bytes between the scanned boundaries are a chain of frames. */
  lemma {:induction false} ScannedChain(append: CrcAppend, log: seq<byte>, offset: nat, running: uint32) returns (fs: seq<FrameBytes>)
    requires offset <= |log| <= USIZE_MAX && ScanFrom(append, log, offset, running).Ok?
    ensures var bs := ScanFrom(append, log, offset, running).value;
            && offset <= EndOf(offset, bs) <= |log|
            && Concat(fs) == log[offset..EndOf(offset, bs)]
            && Chain(append, running, fs)
            && ChainCrc(append, running, fs) == if bs == [] then running else bs[|bs| - 1].1
    decreases |log| - offset
  {
    hide FrameHeaderOk, FrameExtent, FrameLen, FrameBoundary, FrameCrc;
    var bs := ScanFrom(append, log, offset, running).value;
    ScanFromAscends(append, log, offset, running);
    fs := [];
    if bs != [] {
      var b := bs[0];
      assert bs[1..] == ScanFrom(append, log, b.0, b.1).value;
      BoundaryIffFrame(append, log, offset, running, b.0, b.1);
      var rest := ScannedChain(append, log, b.0, b.1);
      fs := [log[offset..b.0]] + rest;
      assert fs[1..] == rest;
    }
  }

  lemma {:induction false} ChainAppend(append: CrcAppend, running: uint32, fs: seq<FrameBytes>, gs: seq<FrameBytes>)
    requires Chain(append, running, fs)
    requires Chain(append, ChainCrc(append, running, fs), gs)
    ensures Chain(append, running, fs + gs) && Concat(fs + gs) == Concat(fs) + Concat(gs)
    decreases |fs|
  {
    hide FrameHeaderOk, Frame, FrameCrc, Concat;
    ConcatAppend(fs, gs);
    if fs == [] {
      assert fs + gs == gs;
    } else {
      ChainAppend(append, FrameCrc(fs[0]), fs[1..], gs);
      assert (fs + gs)[0] == fs[0] && (fs + gs)[1..] == fs[1..] + gs;
    }
  }

  // ---------------------------------------------------------------- the protocol

  /** A whole log is its header followed by a chain of frames. */
  lemma WholeDecodes(append: CrcAppend, b: seq<byte>)
    requires b != [] && |b| <= USIZE_MAX && Whole(append, b)
    ensures Transactions(append, b).Ok? && |b| >= LOG_HEADER_SIZE
    ensures var fs := Transactions(append, b).value;
            && b[LOG_HEADER_SIZE..] == Concat(fs)
            && Chain(append, InitialCrc(append, b), fs)
            && ChainCrc(append, InitialCrc(append, b), fs) == RunningCrc(append, b)
  {
    hide FrameBoundary, ValidateHeader, Chain, ChainCrc;
    var c := InitialCrc(append, b);
    var fs := ScannedChain(append, b, LOG_HEADER_SIZE, c);
    var bs := ScanFrom(append, b, LOG_HEADER_SIZE, c).value;
    assert EndOf(LOG_HEADER_SIZE, bs) == |b|;
    assert b[LOG_HEADER_SIZE..|b|] == b[LOG_HEADER_SIZE..];
    DecodeComplete(append, b, LOG_HEADER_SIZE, c, fs);
  }

  /** The bytes between a held prefix and the end of the scan are a chain from the prefix's CRC. */
  lemma RangeChain(append: CrcAppend, log: seq<byte>, held: seq<byte>) returns (gs: seq<FrameBytes>)
    requires |log| <= USIZE_MAX && Scan(append, log).Ok?
    requires held != [] && held <= log && Whole(append, held)
    ensures var end := Scan(append, log).value.endOffset;
            && |held| <= end <= |log|
            && log[|held|..end] == Concat(gs)
            && Chain(append, RunningCrc(append, held), gs)
  {
    hide FrameBoundary, ValidateHeader, Chain, ChainCrc;
    var n, c, init := |held|, RunningCrc(append, held), InitialCrc(append, log);
    var i := PrefixIsBoundary(append, log, held);
    var bs := ScanFrom(append, log, LOG_HEADER_SIZE, init).value;
    assert Scan(append, log).value.crcByOffset[1..] == bs;
    if i > 0 {
      ScanResumes(append, log, LOG_HEADER_SIZE, init, i - 1);
    } else {
      assert bs[0..] == bs;
    }
    assert ScanFrom(append, log, n, c) == Ok(bs[i..]);
    gs := ScannedChain(append, log, n, c);
    assert EndOf(n, bs[i..]) == Scan(append, log).value.endOffset;
  }

  /** The range past a held prefix decodes, from the CRC of that prefix, to the transactions it lacks. */
  lemma RangeDecodes(append: CrcAppend, log: seq<byte>, held: seq<byte>) returns (gs: seq<FrameBytes>)
    requires |log| <= USIZE_MAX && Scan(append, log).Ok?
    requires held != [] && held <= log && Whole(append, held)
    ensures var end := Scan(append, log).value.endOffset;
            && |held| <= end <= |log|
            && DecodeFrom(append, log[|held|..end], 0, RunningCrc(append, held)) == Ok(gs)
            && Transactions(append, held).Ok?
            && Transactions(append, log[..end]) == Ok(Transactions(append, held).value + gs)
  {
    hide Chain, ChainCrc, ScanFrom, Scan, DecodeFrom, RunningCrc, Concat;
    gs := RangeChain(append, log, held);
    var n, end := |held|, Scan(append, log).value.endOffset;
    var body, b := log[n..end], log[..end];
    assert body[0..] == body && b == held + body;
    DecodeComplete(append, body, 0, RunningCrc(append, held), gs);
    WholeDecodes(append, held);
    var fs, init := Transactions(append, held).value, InitialCrc(append, held);
    ChainAppend(append, init, fs, gs);
    assert b[SALT_START..SALT_END] == held[SALT_START..SALT_END];
    assert b[LOG_HEADER_SIZE..] == held[LOG_HEADER_SIZE..] + body;
    DecodeComplete(append, b, LOG_HEADER_SIZE, init, fs + gs);
  }

  /** What one pull against `log` does for client `c`. */
  ghost predicate CatchesUp(append: CrcAppend, log: seq<byte>, c: Client)
    requires |log| <= USIZE_MAX && Scan(append, log).Ok?
  {
    var end := Scan(append, log).value.endOffset;
    var pulled := HandleLogicalPull(append, log, c.revision);
    && |c.held| <= end <= |log|
    && pulled.Ok?
    && pulled.value.serverRevision == Revision(end)
    && (0 < |c.held| < end ==>
          && Scan(append, c.held).Ok?
          && pulled.value.mvccLog == Some(Range(|c.held|, end, false, Some(U32LeBytes(RunningCrc(append, c.held))))))
    && var c' := Receive(append, c, pulled.value);
    && c'.held == log[..end]
    && c'.revision == Revision(end)
    && Transactions(append, log[..end]) == Ok(c'.frames)
  }

  lemma FirstPull(append: CrcAppend, log: seq<byte>, c: Client)
    requires |log| <= USIZE_MAX && Scan(append, log).Ok?
    requires c.held == [] && c.frames == [] && RevisionOffset(c.revision, Scan(append, log).value.endOffset) == Some(0)
    ensures CatchesUp(append, log, c)
  {
    hide ScanFrom, DecodeFrom, RevisionOffset, ValidateHeader;
    var end := Scan(append, log).value.endOffset;
    ScannedIsWhole(append, log);
    if end > 0 {
      WholeDecodes(append, log[..end]);
      var fs := Transactions(append, log[..end]).value;
      assert c.held + log[..end] == log[..end] && c.frames + fs == fs;
    } else {
      assert c.held + [] == log[..end] && c.frames + [] == c.frames;
    }
  }

  lemma ResumedPull(append: CrcAppend, log: seq<byte>, c: Client)
    requires |log| <= USIZE_MAX && Scan(append, log).Ok?
    requires c.held != [] && c.held <= log && Whole(append, c.held) && Transactions(append, c.held) == Ok(c.frames)
    requires RevisionOffset(c.revision, Scan(append, log).value.endOffset) == Some(|c.held|)
    ensures CatchesUp(append, log, c)
  {
    hide Scan, ScanFrom, DecodeFrom, RevisionOffset, CrcSeedAt, U32LeBytes, U32Le, Transactions, RunningCrc;
    var end, n := Scan(append, log).value.endOffset, |c.held|;
    var gs := RangeDecodes(append, log, c.held);
    var i := PrefixIsBoundary(append, log, c.held);
    BoundariesAscend(append, log);
    SeedFound(Scan(append, log).value.crcByOffset, i);
    SeedRoundTrip(RunningCrc(append, c.held));
    assert c.held + log[n..end] == log[..end];
    if n == end {
      assert log[n..end] == [];
      assert c.held + [] == c.held && c.frames + [] == c.frames;
    }
  }

  lemma FloorStays(append: CrcAppend, log: seq<byte>, held: seq<byte>)
    requires Scan(append, log).Ok? && held <= log && Whole(append, held)
    ensures |held| <= Scan(append, log).value.endOffset
  {
    if held != [] {
      var i := PrefixIsBoundary(append, log, held);
      BoundariesAscend(append, log);
    }
  }

  /**
   One pull by a client in sync. The server always accepts its revision; a resumed range
   carries exactly the running CRC of what the client holds; the strict decoder accepts
   the range, and the client ends with every transaction of the scanned log, once, in order.
   */
  lemma PullCatchesUp(append: CrcAppend, w: World, c: Client)
    requires Inv(append, w) && InSync(append, w, c)
    requires Scan(append, w.log).Ok?
    ensures CatchesUp(append, w.log, c)
  {
    hide Scan, HandleLogicalPull, SplitOnce, CatchesUp;
    var end := Scan(append, w.log).value.endOffset;
    FloorStays(append, w.log, w.log[..w.floor]);
    if c.held == [] {
      RevisionRoundTrip(0, end);
      assert RevisionOffset("", end) == Some(0);
      FirstPull(append, w.log, c);
    } else {
      RevisionRoundTrip(|c.held|, end);
      ResumedPull(append, w.log, c);
    }
  }

  lemma StepPreserves(append: CrcAppend, w: World, step: Step)
    requires Inv(append, w) && Enabled(w, step)
    ensures Inv(append, Next(append, w, step))
  {
    hide Scan, HandleLogicalPull, Transactions, Receive;
    var w' := Next(append, w, step);
    match step
    case Rewrite(log) =>
      assert log[..w.floor] == w.log[..w.floor];
    case Pull(i) =>
      if Scan(append, w.log).Ok? {
        ScannedIsWhole(append, w.log);
        FloorStays(append, w.log, w.log[..w.floor]);
        assert w.log[..w.floor] <= w'.log[..w'.floor];
        PullCatchesUp(append, w, w.clients[i]);
      } else {
        PullFails(append, w.log, w.clients[i].revision);
      }
  }

  lemma PullFails(append: CrcAppend, log: seq<byte>, revision: string)
    requires |log| <= USIZE_MAX && Scan(append, log).Err?
    ensures HandleLogicalPull(append, log, revision).Err?
  {
  }

  /**
   Safety over every run: whatever the writers do past the last scanned boundary and however the
   clients' pulls interleave with it, each client holds a prefix of the server's log that ends at a
   transaction boundary, and has decoded exactly the transactions in it.
   */
  lemma {:induction false} RunsStayInSync(append: CrcAppend, w: World, steps: seq<Step>, w': World)
    requires Inv(append, w) && Reachable(append, w, steps, w')
    ensures Inv(append, w')
    decreases |steps|
  {
    hide Inv, Next, Enabled;
    if steps != [] {
      StepPreserves(append, w, steps[0]);
      RunsStayInSync(append, Next(append, w, steps[0]), steps[1..], w');
    }
  }

  /** From the start: any two clients of one server hold comparable logs, each a prefix of the server's. */
  lemma ClientsAgree(append: CrcAppend, w: World, steps: seq<Step>, w': World, i: nat, j: nat)
    requires Initial(w) && Reachable(append, w, steps, w')
    requires i < |w'.clients| && j < |w'.clients|
    ensures w'.clients[i].held <= w'.log && w'.clients[j].held <= w'.log
    ensures Transactions(append, w'.clients[i].held) == Ok(w'.clients[i].frames)
    ensures w'.clients[i].frames <= w'.clients[j].frames || w'.clients[j].frames <= w'.clients[i].frames
  {
    hide Scan, Transactions, Next, Reachable;
    assert Transactions(append, []) == Ok([]) by {
      EmptyHasNoTransactions(append);
    }
    RunsStayInSync(append, w, steps, w');
    var a, b := w'.clients[i], w'.clients[j];
    if |a.held| <= |b.held| {
      FramesArePrefix(append, a.held, b.held, a.frames, b.frames);
    } else {
      FramesArePrefix(append, b.held, a.held, b.frames, a.frames);
    }
  }

  lemma EmptyHasNoTransactions(append: CrcAppend)
    ensures Transactions(append, []) == Ok([])
  {
  }

  lemma FramesArePrefix(append: CrcAppend, a: seq<byte>, b: seq<byte>, fs: seq<FrameBytes>, gs: seq<FrameBytes>)
    requires |b| <= USIZE_MAX && a <= b && Whole(append, a) && Whole(append, b)
    requires Transactions(append, a) == Ok(fs) && Transactions(append, b) == Ok(gs)
    ensures fs <= gs
  {
    hide Scan, Transactions, DecodeFrom;
    if a == [] {
      EmptyHasNoTransactions(append);
    } else {
      var rest := RangeDecodes(append, b, a);
      assert b[..|b|] == b;
    }
  }
}
