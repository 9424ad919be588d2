/** The writer that executes a dump as it streams in, statement by statement. */
module StatementStream {
  import opened Common

  type Bytes = seq<byte>

  const SEMICOLON: byte := 59
  const NEWLINE: byte := 10
  const RETURN: byte := 13

  // Whether the last of a sequence of executed statements succeeded; it may depend on all of them.
  type Outcome = seq<Bytes> -> bool

  // ---------------------------------------------------------------- terminators

  /** The length of the statement terminator at `i`: `;\n` or `;\r\n`, zero for neither. */
  function TerminatorAt(b: Bytes, i: nat): nat
    requires i < |b|
  {
    if b[i] != SEMICOLON then 0
    else if i + 1 < |b| && b[i + 1] == NEWLINE then 2
    else if i + 2 < |b| && b[i + 1] == RETURN && b[i + 2] == NEWLINE then 3
    else 0
  }

  predicate Unterminated(b: Bytes)
  {
    forall i :: 0 <= i < |b| ==> TerminatorAt(b, i) == 0
  }

  /** `i` and `n` are the position and length of the first terminator. */
  predicate FirstTerminator(b: Bytes, i: nat, n: nat): (first: bool)
    ensures first ==> i < |b|
  {
    i < |b| && n > 0 && TerminatorAt(b, i) == n && forall k :: 0 <= k < i ==> TerminatorAt(b, k) == 0
  }

  method FindStmtEnd(b: Bytes) returns (r: Option<(nat, nat)>)
    ensures r.None? ==> Unterminated(b)
    ensures r.Some? ==> FirstTerminator(b, r.value.0, r.value.1)
  {
    var i := 0;
    while i < |b|
      invariant 0 <= i <= |b| && forall k :: 0 <= k < i ==> TerminatorAt(b, k) == 0
    {
      if b[i] == SEMICOLON {
        if i + 1 < |b| && b[i + 1] == NEWLINE {
          return Some((i, 2));
        }
        if i + 2 < |b| && b[i + 1] == RETURN && b[i + 2] == NEWLINE {
          return Some((i, 3));
        }
      }
      i := i + 1;
    }
    r := None;
  }

  // ---------------------------------------------------------------- draining a buffer

  /** Statements executed so far, bytes kept, and whether every execution succeeded. */
  datatype Progress = Progress(executed: seq<Bytes>, kept: Bytes, ok: bool)

  /** Executing one statement after another from `kept` leads to `after`. */
  ghost predicate Drains(outcome: Outcome, executed: seq<Bytes>, kept: Bytes, after: Progress)
    decreases |kept|
  {
    if Unterminated(kept) then after == Progress(executed, kept, true)
    else
      exists i: nat, n: nat ::
        && FirstTerminator(kept, i, n)
        && i + n <= |kept|
        && var done := executed + [kept[..i + 1]];
           if outcome(done) then Drains(outcome, done, kept[i + n..], after) else after == Progress(done, kept[i + n..], false)
  }

  class ApplyWriter {
    const outcome: Outcome
    var buf: Bytes
    var executed: seq<Bytes>

    constructor (outcome: Outcome)
      ensures this.outcome == outcome && buf == [] && executed == []
    {
      this.outcome := outcome;
      buf, executed := [], [];
    }

    method ExecStmt(stmt: Bytes) returns (ok: bool)
      modifies this`executed
      ensures executed == old(executed) + [stmt] && ok == outcome(executed)
    {
      executed := executed + [stmt];
      ok := outcome(executed);
    }

    method FlushCompleteStatements() returns (ok: bool)
      modifies this
      ensures Drains(outcome, old(executed), old(buf), Progress(executed, buf, ok))
    {
      var next := FindStmtEnd(buf);
      while next.Some?
        invariant next.None? ==> Unterminated(buf)
        invariant next.Some? ==> FirstTerminator(buf, next.value.0, next.value.1)
        invariant forall p :: Drains(outcome, executed, buf, p) ==> Drains(outcome, old(executed), old(buf), p)
        decreases |buf|
      {
        var (end, drain) := next.value;
        ghost var was, before := buf, executed;
        var stmt := buf[..end + 1];
        buf := buf[end + drain..];
        ok := ExecStmt(stmt);
        if !ok {
          assert Drains(outcome, before, was, Progress(executed, buf, false));
          return;
        }
        forall p | Drains(outcome, executed, buf, p) ensures Drains(outcome, before, was, p) {
          assert FirstTerminator(was, end, drain) && end + drain <= |was|;
        }
        next := FindStmtEnd(buf);
      }
      ok := true;
      assert Drains(outcome, executed, buf, Progress(executed, buf, true));
    }

    method Write(data: Bytes) returns (ok: bool)
      modifies this
      ensures Drains(outcome, old(executed), old(buf) + data, Progress(executed, buf, ok))
    {
      buf := buf + data;
      ok := FlushCompleteStatements();
    }
 
    /** A last statement may end without a newline: its semicolon may be followed by whitespace only. */
    method Finish() returns (ok: bool)
      modifies this
      ensures forall i :: LastStatement(old(buf), i) ==>
                executed == old(executed) + [old(buf)[..i + 1]] && buf == [] && ok == outcome(executed)
      ensures (forall i :: !LastStatement(old(buf), i)) ==> executed == old(executed) && buf == old(buf) && ok
    {
      ok := true;
      var i := |buf|;
      while i > 0 && buf[i - 1] != SEMICOLON
        invariant 0 <= i <= |buf|
        invariant forall k :: i <= k < |buf| ==> buf[k] != SEMICOLON
      {
        i := i - 1;
      }
      if i > 0 {
        var blank := true;
        for k := i to |buf|
          invariant blank <==> forall j :: i <= j < k ==> IsBlank(buf[j])
        {
          blank := blank && IsBlank(buf[k]);
        }
        if blank {
          assert LastStatement(buf, i - 1);
          var stmt := buf[..i];
          buf := [];
          ok := ExecStmt(stmt);
        }
      }
    }
  }

  predicate IsBlank(b: byte) { b == 32 || b == 9 || b == 13 || b == 10 }

  /** `i` is the last semicolon, and only blanks follow it. */
  predicate LastStatement(b: Bytes, i: int)
  {
    0 <= i < |b| && b[i] == SEMICOLON && forall k :: i < k < |b| ==> IsBlank(b[k])
  }

  // ---------------------------------------------------------------- cutting the stream

  lemma TerminatorStable(a: Bytes, b: Bytes, i: nat, n: nat)
    requires FirstTerminator(a, i, n)
    ensures FirstTerminator(a + b, i, n) && i + n <= |a|
    ensures (a + b)[..i + 1] == a[..i + 1] && (a + b)[i + n..] == a[i + n..] + b
  {
    forall k | 0 <= k < i ensures TerminatorAt(a + b, k) == 0 {
      assert TerminatorAt(a, k) == 0;
    }
  }

  lemma FirstTerminatorUnique(a: Bytes, i: nat, n: nat, i': nat, n': nat)
    requires FirstTerminator(a, i, n) && FirstTerminator(a, i', n')
    ensures i == i' && n == n'
  {
  }

  lemma SomeTerminator(a: Bytes, i: nat, n: nat)
    requires FirstTerminator(a, i, n)
    ensures !Unterminated(a) && i < |a|
  {
  }

  /** One step of a drain, with its terminator named. */
  lemma DrainStep(outcome: Outcome, h: seq<Bytes>, a: Bytes, i: nat, n: nat, p: Progress)
    requires FirstTerminator(a, i, n) && i + n <= |a|
    ensures var done := h + [a[..i + 1]];
            Drains(outcome, h, a, p) <==>
              if outcome(done) then Drains(outcome, done, a[i + n..], p) else p == Progress(done, a[i + n..], false)
  {
    hide FirstTerminator, Unterminated;
    SomeTerminator(a, i, n);
    if Drains(outcome, h, a, p) {
      var i': nat, n': nat :|
        && FirstTerminator(a, i', n')
        && i' + n' <= |a|
        && var done := h + [a[..i' + 1]];
           if outcome(done) then Drains(outcome, done, a[i' + n'..], p) else p == Progress(done, a[i' + n'..], false);
      FirstTerminatorUnique(a, i, n, i', n');
    }
  }

  lemma DrainNothing(outcome: Outcome, h: seq<Bytes>, a: Bytes, p: Progress)
    requires Unterminated(a)
    ensures Drains(outcome, h, a, p) <==> p == Progress(h, a, true)
  {
  }

  lemma FindFirst(a: Bytes) returns (i: nat, n: nat)
    requires !Unterminated(a)
    ensures FirstTerminator(a, i, n) && i + n <= |a|
  {
    i := 0;
    while TerminatorAt(a, i) == 0
      invariant i < |a| && forall k :: 0 <= k < i ==> TerminatorAt(a, k) == 0
      decreases |a| - i
    {
      i := i + 1;
    }
    n := TerminatorAt(a, i);
  }

  /** Bytes that arrive later do not change what was executed before they came. */
  lemma {:induction false} DrainAppend(outcome: Outcome, h: seq<Bytes>, a: Bytes, b: Bytes, p: Progress, q: Progress)
    requires Drains(outcome, h, a, p)
    ensures p.ok ==> (Drains(outcome, h, a + b, q) <==> Drains(outcome, p.executed, p.kept + b, q))
    ensures !p.ok ==> (Drains(outcome, h, a + b, q) <==> q == Progress(p.executed, p.kept + b, false))
    decreases |a|
  {
    hide Drains, FirstTerminator, Unterminated;
    if Unterminated(a) {
      DrainNothing(outcome, h, a, p);
    } else {
      var i, n := FindFirst(a);
      TerminatorStable(a, b, i, n);
      DrainStep(outcome, h, a, i, n, p);
      DrainStep(outcome, h, a + b, i, n, q);
      if outcome(h + [a[..i + 1]]) {
        DrainAppend(outcome, h + [a[..i + 1]], a[i + n..], b, p, q);
      }
    }
  }

  /** Writing chunk after chunk, stopping at the first failure. */
  ghost predicate Writes(outcome: Outcome, from: Progress, chunks: seq<Bytes>, after: Progress)
    decreases |chunks|
  {
    if chunks == [] || !from.ok then after == from
    else exists mid :: Drains(outcome, from.executed, from.kept + chunks[0], mid) && Writes(outcome, mid, chunks[1..], after)
  }

  /** However a stream is cut into writes, the same statements are executed, and without a failure the same bytes are kept. */
  lemma {:induction false} ChunkingIrrelevant(outcome: Outcome, from: Progress, chunks: seq<Bytes>, p: Progress, q: Progress)
    requires from.ok && Unterminated(from.kept)
    requires Writes(outcome, from, chunks, p)
    requires Drains(outcome, from.executed, from.kept + Concat(chunks), q)
    ensures p.executed == q.executed && p.ok == q.ok && (p.ok ==> p.kept == q.kept)
    decreases |chunks|
  {
    hide Drains, Unterminated;
    if chunks == [] {
      assert from.kept + [] == from.kept;
      DrainNothing(outcome, from.executed, from.kept, q);
    } else {
      var mid :| Drains(outcome, from.executed, from.kept + chunks[0], mid) && Writes(outcome, mid, chunks[1..], p);
      var a, b := from.kept + chunks[0], Concat(chunks[1..]);
      assert from.kept + Concat(chunks) == a + b;
      DrainAppend(outcome, from.executed, a, b, mid, q);
      if mid.ok {
        KeptIsUnterminated(outcome, from.executed, a, mid);
        ChunkingIrrelevant(outcome, mid, chunks[1..], p, q);
      }
    }
  }

  lemma {:induction false} KeptIsUnterminated(outcome: Outcome, h: seq<Bytes>, a: Bytes, p: Progress)
    requires Drains(outcome, h, a, p)
    ensures p.ok ==> Unterminated(p.kept)
    decreases |a|
  {
    hide Drains, FirstTerminator, Unterminated;
    if Unterminated(a) {
      DrainNothing(outcome, h, a, p);
    } else {
      var i, n := FindFirst(a);
      DrainStep(outcome, h, a, i, n, p);
      if outcome(h + [a[..i + 1]]) {
        KeptIsUnterminated(outcome, h + [a[..i + 1]], a[i + n..], p);
      }
    }
  }

  // ---------------------------------------------------------------- what is executed

  /** A statement without its semicolon, and how its line ends. */
  datatype Line = Line(stmt: Bytes, crlf: bool)
  {
    function Ending(): Bytes { if crlf then [13, 10] else [10] }
  }

  /** Each statement followed by a semicolon and its own line ending. */
  function Stream(lines: seq<Line>): Bytes
  {
    if lines == [] then [] else lines[0].stmt + [SEMICOLON] + lines[0].Ending() + Stream(lines[1..])
  }

  function WithSemicolons(lines: seq<Line>): seq<Bytes>
  {
    if lines == [] then [] else [lines[0].stmt + [SEMICOLON]] + WithSemicolons(lines[1..])
  }

  lemma StreamHead(lines: seq<Line>)
    requires lines != [] && Unterminated(lines[0].stmt)
    ensures var b, i, n := Stream(lines), |lines[0].stmt|, 1 + |lines[0].Ending()|;
            && FirstTerminator(b, i, n) && i + n <= |b|
            && b[..i + 1] == lines[0].stmt + [SEMICOLON] && b[i + n..] == Stream(lines[1..])
  {
    hide Stream;
    var s, end, rest := lines[0].stmt, lines[0].Ending(), Stream(lines[1..]);
    var b, i := s + [SEMICOLON] + end + rest, |s|;
    assert b == Stream(lines) by {
      StreamUnfold(lines);
    }
    assert b[i] == SEMICOLON && b[i + 1] == end[0] && (lines[0].crlf ==> b[i + 2] == end[1]);
    forall k | 0 <= k < i ensures TerminatorAt(b, k) == 0 {
      assert TerminatorAt(s, k) == 0;
      assert b[k] == s[k];
    }
  }

  lemma StreamUnfold(lines: seq<Line>)
    requires lines != []
    ensures Stream(lines) == lines[0].stmt + [SEMICOLON] + lines[0].Ending() + Stream(lines[1..])
  {
  }

  lemma EmptyStream()
    ensures Stream([]) == [] && Unterminated([])
  {
  }

  /**
   A stream of statements free of terminators, lines ending either way, is executed exactly, in order,
   up to the first failure; bytes after it without a terminator are kept.
   */
  lemma {:induction false} StreamIsExecuted(outcome: Outcome, h: seq<Bytes>, lines: seq<Line>, tail: Bytes, p: Progress)
    returns (k: nat)
    requires Unterminated(tail) && forall i :: 0 <= i < |lines| ==> Unterminated(lines[i].stmt)
    requires Drains(outcome, h, Stream(lines) + tail, p)
    ensures k <= |lines| && p.executed == h + WithSemicolons(lines[..k]) && p.kept == Stream(lines[k..]) + tail
    ensures p.ok ==> k == |lines|
    ensures !p.ok ==> !outcome(p.executed)
    decreases |lines|
  {
    hide Drains, FirstTerminator, Unterminated, Stream;
    if lines == [] {
      k := 0;
      assert h + [] == h;
      EmptyStream();
      assert Stream(lines) + tail == tail;
      DrainNothing(outcome, h, tail, p);
    } else {
      StreamHead(lines);
      var s := lines[0].stmt + [SEMICOLON];
      var done := h + [s];
      TerminatorStable(Stream(lines), tail, |lines[0].stmt|, 1 + |lines[0].Ending()|);
      DrainStep(outcome, h, Stream(lines) + tail, |lines[0].stmt|, 1 + |lines[0].Ending()|, p);
      k := 0;
      if outcome(done) {
        k := StreamIsExecuted(outcome, done, lines[1..], tail, p);
      }
      k := k + 1;
      assert lines[..k][1..] == lines[1..][..k - 1] && lines[k..] == lines[1..][k - 1..];
      assert h + ([s] + WithSemicolons(lines[..k][1..])) == done + WithSemicolons(lines[1..][..k - 1]);
    }
  }

  // ---------------------------------------------------------------- a whole dump

  /** A last statement with its semicolon, then spaces, tabs and line ends, but no line end right after the semicolon. */
  ghost predicate LastLine(tail: Bytes, last: Bytes)
  {
    && |tail| > |last| && tail[..|last|] == last && tail[|last|] == 59 && Unterminated(tail)
    && forall k :: |last| < k < |tail| ==> tail[k] == 9 || tail[k] == 10 || tail[k] == 13 || tail[k] == 32
  }

  lemma OneLastStatement(tail: Bytes, last: Bytes, i: int)
    requires LastLine(tail, last)
    ensures LastStatement(tail, i) <==> i == |last|
  {
    assert LastStatement(tail, |last|);
    assert !IsBlank(tail[|last|]);
  }

  lemma {:induction false} DrainsSomehow(outcome: Outcome, h: seq<Bytes>, a: Bytes) returns (p: Progress)
    ensures Drains(outcome, h, a, p)
    decreases |a|
  {
    if Unterminated(a) {
      p := Progress(h, a, true);
    } else {
      var i, n := FindFirst(a);
      TerminatorStable(a, [], i, n);
      var done := h + [a[..i + 1]];
      if outcome(done) {
        p := DrainsSomehow(outcome, done, a[i + n..]);
      } else {
        p := Progress(done, a[i + n..], false);
      }
      DrainStep(outcome, h, a, i, n, p);
    }
  }

  /** The bytes left when a stream has been written and nothing failed are those after its last terminator. */
  lemma TailIsKept(outcome: Outcome, chunks: seq<Bytes>, lines: seq<Line>, tail: Bytes, p: Progress)
    requires Unterminated(tail) && forall i :: 0 <= i < |lines| ==> Unterminated(lines[i].stmt)
    requires Concat(chunks) == Stream(lines) + tail && Writes(outcome, Progress([], [], true), chunks, p)
    ensures p.ok ==> p.executed == WithSemicolons(lines) && p.kept == tail
    ensures !p.ok ==> !outcome(p.executed) && exists k: nat :: k <= |lines| && p.executed == WithSemicolons(lines[..k])
  {
    hide Drains, Stream, Writes;
    var a := Stream(lines) + tail;
    var q := DrainsSomehow(outcome, [], a);
    assert [] + Concat(chunks) == a;
    ChunkingIrrelevant(outcome, Progress([], [], true), chunks, p, q);
    var k := StreamIsExecuted(outcome, [], lines, tail, q);
    assert [] + WithSemicolons(lines[..k]) == WithSemicolons(lines[..k]);
    assert lines[..|lines|] == lines;
    if p.ok {
      EmptyStream();
      assert lines[k..] == [] && Stream([]) + tail == tail;
    }
  }

  lemma {:induction false} WritesSnoc(outcome: Outcome, from: Progress, chunks: seq<Bytes>, mid: Progress, chunk: Bytes, after: Progress)
    requires Writes(outcome, from, chunks, mid) && mid.ok && Drains(outcome, mid.executed, mid.kept + chunk, after)
    ensures Writes(outcome, from, chunks + [chunk], after)
    decreases |chunks|
  {
    hide Drains;
    if chunks == [] {
      assert [chunk][1..] == [] && Writes(outcome, after, [], after);
      assert chunks + [chunk] == [chunk];
    } else {
      var next :| Drains(outcome, from.executed, from.kept + chunks[0], next) && Writes(outcome, next, chunks[1..], mid);
      WritesSnoc(outcome, next, chunks[1..], mid, chunk, after);
      assert (chunks + [chunk])[1..] == chunks[1..] + [chunk];
    }
  }

  lemma {:induction false} FailureEnds(outcome: Outcome, from: Progress, chunks: seq<Bytes>, more: seq<Bytes>, after: Progress)
    requires Writes(outcome, from, chunks, after) && !after.ok
    ensures Writes(outcome, from, chunks + more, after)
    decreases |chunks|
  {
    hide Drains;
    if from.ok {
      var next :| Drains(outcome, from.executed, from.kept + chunks[0], next) && Writes(outcome, next, chunks[1..], after);
      FailureEnds(outcome, next, chunks[1..], more, after);
      assert (chunks + more)[1..] == chunks[1..] + more;
    }
  }

  /** What follows the last line of a dump: a last statement, or none and no semicolon. */
  ghost predicate Ends(tail: Bytes, last: Option<Bytes>)
  {
    if last.Some? then LastLine(tail, last.value) else 59 !in tail
  }

  function Statements(lines: seq<Line>, last: Option<Bytes>): seq<Bytes>
  {
    WithSemicolons(lines) + if last.Some? then [last.value + [59]] else []
  }

  lemma EndMeans(tail: Bytes, last: Option<Bytes>)
    requires Ends(tail, last)
    ensures Unterminated(tail)
    ensures last.None? ==> forall i :: !LastStatement(tail, i)
    ensures last.Some? ==> LastStatement(tail, |last.value|) && tail[..|last.value| + 1] == last.value + [59]
  {
    if last.Some? {
      OneLastStatement(tail, last.value, |last.value|);
    }
  }

  lemma {:induction false} FirstOnes(lines: seq<Line>, k: nat)
    requires k <= |lines|
    ensures WithSemicolons(lines[..k]) <= WithSemicolons(lines)
    decreases k
  {
    if k > 0 {
      FirstOnes(lines[1..], k - 1);
      assert lines[..k][1..] == lines[1..][..k - 1];
    }
  }

  lemma NothingWritten(outcome: Outcome, p: Progress)
    ensures Writes(outcome, p, [], p)
  {
  }

  /**
   A dump as it is applied, chunk by chunk and then finished: its statements are executed exactly, in
   order, a last one without a line end too, up to the first failure.
   */
  method ApplyDump(outcome: Outcome, chunks: seq<Bytes>, ghost lines: seq<Line>, ghost last: Option<Bytes>, ghost tail: Bytes)
    returns (executed: seq<Bytes>, ok: bool)
    requires Ends(tail, last) && forall i :: 0 <= i < |lines| ==> Unterminated(lines[i].stmt)
    requires Concat(chunks) == Stream(lines) + tail
    ensures ok ==> executed == Statements(lines, last)
    ensures !ok ==> executed <= Statements(lines, last) && !outcome(executed)
  {
    hide Drains, Stream, Writes, LastStatement, Ends, WithSemicolons, Concat, Unterminated;
    var w := new ApplyWriter(outcome);
    ghost var start := Progress([], [], true);
    NothingWritten(outcome, start);
    var i := 0;
    ok := true;
    while i < |chunks| && ok
      invariant 0 <= i <= |chunks| && fresh(w) && w.outcome == outcome
      invariant Writes(outcome, start, chunks[..i], Progress(w.executed, w.buf, ok))
    {
      ghost var mid := Progress(w.executed, w.buf, ok);
      ok := w.Write(chunks[i]);
      WritesSnoc(outcome, start, chunks[..i], mid, chunks[i], Progress(w.executed, w.buf, ok));
      assert chunks[..i + 1] == chunks[..i] + [chunks[i]];
      i := i + 1;
    }
    ghost var p := Progress(w.executed, w.buf, ok);
    assert chunks == chunks[..i] + chunks[i..];
    if !ok {
      FailureEnds(outcome, start, chunks[..i], chunks[i..], p);
    } else {
      assert chunks[..i] == chunks;
    }
    EndMeans(tail, last);
    TailIsKept(outcome, chunks, lines, tail, p);
    if ok {
      ok := w.Finish();
    } else {
      ghost var k: nat :| k <= |lines| && w.executed == WithSemicolons(lines[..k]);
      FirstOnes(lines, k);
    }
    executed := w.executed;
  }

  /** The stream is made of the executed statements, one newline sequence after each, and the bytes kept. */
  lemma {:induction false} NothingIsLost(outcome: Outcome, h: seq<Bytes>, a: Bytes, p: Progress) returns (parts: seq<Bytes>)
    requires Drains(outcome, h, a, p)
    ensures h <= p.executed && |parts| == |p.executed| - |h|
    ensures forall i :: 0 <= i < |parts| ==>
              parts[i] == p.executed[|h| + i] + [NEWLINE] || parts[i] == p.executed[|h| + i] + [RETURN, NEWLINE]
    ensures a == Concat(parts) + p.kept
    decreases |a|
  {
    hide Drains, FirstTerminator, Unterminated;
    parts := [];
    if Unterminated(a) {
      DrainNothing(outcome, h, a, p);
    } else {
      var i, n := FindFirst(a);
      DrainStep(outcome, h, a, i, n, p);
      var done, first := h + [a[..i + 1]], a[..i + n];
      TerminatorBytes(a, i, n);
      if outcome(done) {
        parts := NothingIsLost(outcome, done, a[i + n..], p);
      }
      assert ([first] + parts)[1..] == parts;
      assert a == first + a[i + n..];
      assert first + (Concat(parts) + p.kept) == (first + Concat(parts)) + p.kept;
      parts := [first] + parts;
    }
  }

  lemma TerminatorBytes(a: Bytes, i: nat, n: nat)
    requires FirstTerminator(a, i, n) && i + n <= |a|
    ensures a[..i + n] == a[..i + 1] + [NEWLINE] || a[..i + n] == a[..i + 1] + [RETURN, NEWLINE]
  {
    assert a[..i + n] == a[..i + 1] + a[i + 1..i + n];
    assert a[i + 1..i + n] == [NEWLINE] || a[i + 1..i + n] == [RETURN, NEWLINE];
  }

  /** Statements contain none of the two byte patterns that end one, spelled out. */
  lemma UnterminatedMeans(b: Bytes)
    ensures Unterminated(b)
       <==> && (forall i :: 0 <= i < |b| - 1 ==> !(b[i] == 59 && b[i + 1] == 10))
            && (forall i :: 0 <= i < |b| - 2 ==> !(b[i] == 59 && b[i + 1] == 13 && b[i + 2] == 10))
  {
    if Unterminated(b) {
      forall i | 0 <= i < |b| - 1 ensures !(b[i] == 59 && b[i + 1] == 10) {
        assert TerminatorAt(b, i) == 0;
      }
      forall i | 0 <= i < |b| - 2 ensures !(b[i] == 59 && b[i + 1] == 13 && b[i + 2] == 10) {
        assert TerminatorAt(b, i) == 0;
      }
    }
  }
}
