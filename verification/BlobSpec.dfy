/**
 What a blob handle means: a fixed-length byte array with an expiry latch, and the same handle with
 its stored rows and the operation a `Busy` return left unfinished.
 */
module BlobSpec {
  import opened Common
  import opened BlobVm
  import opened BlobExec

  datatype BlobError = Expired | ReadOnly | OutOfRange | Busy | Unexpected

  // ---------------------------------------------------------------- the abstract handle

  /**
   `value` is the bytes as this handle's writes left them, or nothing once someone else wrote the
   row; `reported` latches when an operation has said so.
   */
  datatype Handle = Handle(value: Option<seq<byte>>, len: nat, readOnly: bool, reported: bool)

  predicate Sized(h: Handle)
  {
    h.value.Some? ==> |h.value.value| == h.len
  }

  function SpecRead(h: Handle, off: nat, n: nat): (Handle, Result<seq<byte>, BlobError>)
    requires Sized(h)
  {
    if h.reported then (h, Err(Expired))
    else if off + n > h.len then (h, Err(OutOfRange))
    else if n == 0 then (h, Ok([]))
    else if h.value.None? then (h.(reported := true), Err(Expired))
    else (h, Ok(h.value.value[off..off + n]))
  }

  function SpecWrite(h: Handle, off: nat, data: seq<byte>): (Handle, Result<(), BlobError>)
    requires Sized(h)
  {
    if h.reported then (h, Err(Expired))
    else if h.readOnly then (h, Err(ReadOnly))
    else if off + |data| > h.len then (h, Err(OutOfRange))
    else if data == [] then (h, Ok(()))
    else if h.value.None? then (h.(reported := true), Err(Expired))
    else (h.(value := Some(Spliced(h.value.value, off, data))), Ok(()))
  }

  /** `DoPeer` is another statement writing row `row`; `known` says whether the cursor is told which row it was. */
  datatype Op =
    | DoRead(off: nat, n: nat)
    | DoWrite(off: nat, data: seq<byte>)
    | DoPeer(row: int, known: bool, cell: Option<Cell>)

  datatype Reply = Got(r: Result<seq<byte>, BlobError>) | Wrote(w: Result<(), BlobError>) | NoReply

  predicate Hits(op: Op, rowid: int) { op.DoPeer? && (!op.known || op.row == rowid) }

  function Changed(rows: Rows, k: int, cell: Option<Cell>): Rows
  {
    if cell.None? then rows - {k} else rows[k := cell.value]
  }

  function SpecStep(rowid: int, h: Handle, op: Op): (r: (Handle, Reply))
    requires Sized(h)
    ensures Sized(r.0) && r.0.len == h.len && r.0.readOnly == h.readOnly
  {
    match op
    case DoRead(off, n) => var (h', r) := SpecRead(h, off, n); (h', Got(r))
    case DoWrite(off, data) => var (h', w) := SpecWrite(h, off, data); (h', Wrote(w))
    case DoPeer(_, _, _) => (if Hits(op, rowid) then h.(value := None) else h, NoReply)
  }

  function SpecRun(rowid: int, h: Handle, ops: seq<Op>): (r: (Handle, seq<Reply>))
    requires Sized(h)
    ensures Sized(r.0) && |r.1| == |ops|
  {
    if ops == [] then (h, [])
    else
      var (h', replies) := SpecRun(rowid, h, ops[..|ops| - 1]);
      var (h'', reply) := SpecStep(rowid, h', ops[|ops| - 1]);
      (h'', replies + [reply])
  }

  // ---------------------------------------------------------------- what the byte array promises

  ghost predicate Undisturbed(rowid: int, ops: seq<Op>)
  {
    forall i :: 0 <= i < |ops| ==> !Hits(ops[i], rowid)
  }

  /** `op` is a write within `len` bytes that covers byte `i`. */
  predicate Covers(op: Op, len: nat, i: nat)
  {
    op.DoWrite? && op.off + |op.data| <= len && op.off <= i < op.off + |op.data|
  }

  /** The byte the last covering write put at `i`, or the initial one. */
  function LastByte(ops: seq<Op>, init: seq<byte>, i: nat): byte
    requires i < |init|
  {
    if ops == [] then init[i]
    else
      var op := ops[|ops| - 1];
      if Covers(op, |init|, i) then op.data[i - op.off] else LastByte(ops[..|ops| - 1], init, i)
  }

  /** Until someone else writes the row, every byte is what the last write to cover it put there, and nothing expires. */
  lemma {:induction false} BytesAreLatest(rowid: int, h: Handle, ops: seq<Op>, i: nat)
    requires Sized(h) && h.value.Some? && !h.readOnly && !h.reported && i < h.len && Undisturbed(rowid, ops)
    ensures var h' := SpecRun(rowid, h, ops).0;
            h'.value.Some? && |h'.value.value| == h.len && !h'.reported && h'.value.value[i] == LastByte(ops, h.value.value, i)
    decreases |ops|
  {
    if ops != [] {
      BytesAreLatest(rowid, h, ops[..|ops| - 1], i);
      RunKeepsShape(rowid, h, ops[..|ops| - 1]);
    }
  }

  lemma {:induction false} RunKeepsShape(rowid: int, h: Handle, ops: seq<Op>)
    requires Sized(h)
    ensures SpecRun(rowid, h, ops).0.len == h.len && SpecRun(rowid, h, ops).0.readOnly == h.readOnly
    decreases |ops|
  {
    if ops != [] {
      RunKeepsShape(rowid, h, ops[..|ops| - 1]);
    }
  }

  /** Once expiry has been reported, every later read and write reports it, whatever else happens. */
  lemma {:induction false} ExpiryLatches(rowid: int, h: Handle, ops: seq<Op>)
    requires Sized(h) && h.reported
    ensures SpecRun(rowid, h, ops).0.reported
    ensures forall i :: 0 <= i < |ops| ==>
              match ops[i]
              case DoRead(_, _) => SpecRun(rowid, h, ops).1[i] == Got(Err(Expired))
              case DoWrite(_, _) => SpecRun(rowid, h, ops).1[i] == Wrote(Err(Expired))
              case DoPeer(_, _, _) => true
    decreases |ops|
  {
    if ops != [] {
      ExpiryLatches(rowid, h, ops[..|ops| - 1]);
    }
  }

  /** The operation asks for bytes within the value, and may. */
  predicate Reaches(op: Op, len: nat, readOnly: bool)
  {
    match op
    case DoRead(off, n) => 0 < n && off + n <= len
    case DoWrite(off, data) => !readOnly && data != [] && off + |data| <= len
    case DoPeer(_, _, _) => false
  }

  /** Someone else wrote the row, and a later operation ran into that. */
  ghost predicate Told(rowid: int, ops: seq<Op>, len: nat, readOnly: bool)
  {
    exists i, j :: 0 <= i < j < |ops| && Hits(ops[i], rowid) && Reaches(ops[j], len, readOnly)
  }

  lemma {:induction false} HistoryDecides(rowid: int, h: Handle, ops: seq<Op>)
    requires Sized(h) && h.value.Some? && !h.reported
    ensures var h' := SpecRun(rowid, h, ops).0;
            h'.value.Some? == Undisturbed(rowid, ops) && h'.reported == Told(rowid, ops, h.len, h.readOnly)
    decreases |ops|
  {
    if ops != [] {
      var n := |ops| - 1;
      var init, op := ops[..n], ops[n];
      HistoryDecides(rowid, h, init);
      RunKeepsShape(rowid, h, init);
      if Undisturbed(rowid, init) {
        assert Undisturbed(rowid, ops) <==> !Hits(op, rowid);
      } else {
        var i :| 0 <= i < |init| && Hits(init[i], rowid);
        assert Hits(ops[i], rowid);
      }
      ToldOneMore(rowid, ops, h.len, h.readOnly);
    }
  }

  lemma ToldOneMore(rowid: int, ops: seq<Op>, len: nat, readOnly: bool)
    requires ops != []
    ensures var n := |ops| - 1;
            Told(rowid, ops, len, readOnly)
            <==> Told(rowid, ops[..n], len, readOnly) || (Reaches(ops[n], len, readOnly) && !Undisturbed(rowid, ops[..n]))
  {
    var n := |ops| - 1;
    if Told(rowid, ops, len, readOnly) {
      var i, j :| 0 <= i < j < |ops| && Hits(ops[i], rowid) && Reaches(ops[j], len, readOnly);
      assert Hits(ops[..n][i], rowid);
      assert j < n ==> Reaches(ops[..n][j], len, readOnly);
    }
    if Told(rowid, ops[..n], len, readOnly) {
      var i, j :| 0 <= i < j < n && Hits(ops[..n][i], rowid) && Reaches(ops[..n][j], len, readOnly);
      assert Hits(ops[i], rowid) && Reaches(ops[j], len, readOnly);
    }
    if !Undisturbed(rowid, ops[..n]) {
      var i :| 0 <= i < n && Hits(ops[..n][i], rowid);
      assert Hits(ops[i], rowid);
    }
  }

  /** A read-only handle's bytes never change, however it is written to. */
  lemma {:induction false} ReadOnlyKeeps(rowid: int, h: Handle, ops: seq<Op>)
    requires Sized(h) && h.value.Some? && h.readOnly && Undisturbed(rowid, ops)
    ensures SpecRun(rowid, h, ops).0.value == h.value
    decreases |ops|
  {
    if ops != [] {
      ReadOnlyKeeps(rowid, h, ops[..|ops| - 1]);
      RunKeepsShape(rowid, h, ops[..|ops| - 1]);
    }
  }

  /** The byte at `i` as this handle's writes left it; a read-only handle's writes leave nothing. */
  function Latest(h: Handle, ops: seq<Op>, i: nat): byte
    requires h.value.Some? && i < |h.value.value|
  {
    if h.readOnly then h.value.value[i] else LastByte(ops, h.value.value, i)
  }

  lemma ValueIsLatest(rowid: int, h: Handle, ops: seq<Op>)
    requires Sized(h) && h.value.Some? && !h.reported && Undisturbed(rowid, ops)
    ensures var v := SpecRun(rowid, h, ops).0.value;
            v.Some? && |v.value| == h.len && forall i: nat :: i < h.len ==> v.value[i] == Latest(h, ops, i)
  {
    if h.readOnly {
      ReadOnlyKeeps(rowid, h, ops);
    } else {
      HistoryDecides(rowid, h, ops);
      RunKeepsShape(rowid, h, ops);
      forall i: nat | i < h.len ensures SpecRun(rowid, h, ops).0.value.value[i] == Latest(h, ops, i) {
        BytesAreLatest(rowid, h, ops, i);
      }
    }
  }

  /** What a read answers is decided by what was done before it: the latest bytes, or the one reason there are none. */
  lemma ReadReplies(rowid: int, h: Handle, before: seq<Op>, off: nat, n: nat)
    requires Sized(h) && h.value.Some? && !h.reported
    ensures var r := SpecRun(rowid, h, before + [DoRead(off, n)]).1[|before|];
            var fits := off + n <= h.len;
            var told := Told(rowid, before, h.len, h.readOnly);
            && (r == Got(Err(Expired)) <==> told || (fits && n > 0 && !Undisturbed(rowid, before)))
            && (r == Got(Err(OutOfRange)) <==> !told && !fits)
            && (!told && fits && (n == 0 || Undisturbed(rowid, before)) ==>
                  && r.Got? && r.r.Ok? && |r.r.value| == n
                  && forall j: nat :: j < n ==> r.r.value[j] == Latest(h, before, off + j))
  {
    hide Latest, Told, Undisturbed;
    var ops := before + [DoRead(off, n)];
    assert ops[..|before|] == before;
    HistoryDecides(rowid, h, before);
    RunKeepsShape(rowid, h, before);
    var h' := SpecRun(rowid, h, before).0;
    if h'.value.Some? {
      ValueIsLatest(rowid, h, before);
    }
  }

  /** What a write answers, likewise. */
  lemma WriteReplies(rowid: int, h: Handle, before: seq<Op>, off: nat, data: seq<byte>)
    requires Sized(h) && h.value.Some? && !h.reported
    ensures var w := SpecRun(rowid, h, before + [DoWrite(off, data)]).1[|before|];
            var fits := off + |data| <= h.len;
            var told := Told(rowid, before, h.len, h.readOnly);
            && (w == Wrote(Err(Expired)) <==> told || (!h.readOnly && fits && data != [] && !Undisturbed(rowid, before)))
            && (w == Wrote(Err(ReadOnly)) <==> !told && h.readOnly)
            && (w == Wrote(Err(OutOfRange)) <==> !told && !h.readOnly && !fits)
            && (w == Wrote(Ok(())) <==> !told && !h.readOnly && fits && (data == [] || Undisturbed(rowid, before)))
  {
    hide Told, Undisturbed;
    var ops := before + [DoWrite(off, data)];
    assert ops[..|before|] == before;
    HistoryDecides(rowid, h, before);
    RunKeepsShape(rowid, h, before);
  }

  // ---------------------------------------------------------------- the handle with its rows

  /** An operation a `Busy` return left loaded in the machine. */
  datatype Pending = Nothing | PendingRead(off: nat, n: nat) | PendingWrite(off: nat, data: seq<byte>)

  /** `lost` when someone else wrote the row, `reported` when an operation has said so. */
  datatype State = State(rowid: int, len: nat, readOnly: bool, rows: Rows, lost: bool, reported: bool, pending: Pending)

  predicate Holds(s: State)
  {
    s.rowid in s.rows && s.rows[s.rowid].Bytes? && |s.rows[s.rowid].b| == s.len
  }

  predicate Fits(p: Pending, len: nat, readOnly: bool)
  {
    match p
    case Nothing => true
    case PendingRead(off, n) => n > 0 && off + n <= len
    case PendingWrite(off, data) => data != [] && off + |data| <= len && !readOnly
  }

  predicate Valid(s: State)
  {
    (!s.lost ==> Holds(s)) && Fits(s.pending, s.len, s.readOnly)
  }

  /** The byte array a handle stands for. */
  function View(s: State): (h: Handle)
    requires Valid(s)
    ensures Sized(h)
  {
    Handle(if s.lost then None else Some(s.rows[s.rowid].b), s.len, s.readOnly, s.reported)
  }

  function Request(op: Op): Pending
  {
    match op
    case DoRead(off, n) => PendingRead(off, n)
    case DoWrite(off, data) => PendingWrite(off, data)
    case DoPeer(_, _, _) => Nothing
  }

  /** The operation gets past the handle's own checks and steps the machine. */
  predicate Steps(s: State, op: Op)
  {
    !op.DoPeer? && !s.reported && Fits(Request(op), s.len, s.readOnly)
  }

  /** The rows with `data` stored at `off` of the handle's value. */
  function WithBytes(s: State, off: nat, data: seq<byte>): Rows
    requires Holds(s) && off + |data| <= s.len
  {
    s.rows[s.rowid := Bytes(Spliced(s.rows[s.rowid].b, off, data))]
  }

  /** Run the loaded operation: cut short at its page access, told of expiry, or carried out. */
  function Resume(s: State, p: Pending, plan: seq<Interruption>): (r: (State, Result<Val, BlobError>))
    requires Valid(s) && p != Nothing && Fits(p, s.len, s.readOnly)
    ensures Valid(r.0)
  {
    if s.lost then (s.(reported := true, pending := Nothing), Err(Expired))
    else if Cuts(plan) then
      (s.(pending := p, rows := if p.PendingWrite? then WithBytes(s, p.off, Front(p.data, Stored(plan))) else s.rows), Err(Busy))
    else if p.PendingRead? then
      (s.(pending := Nothing), Ok(VBlob(s.rows[s.rowid].b[p.off..p.off + p.n])))
    else (s.(pending := Nothing, rows := WithBytes(s, p.off, p.data)), Ok(VInt(1)))
  }

  function ReadReply(n: nat, answer: Result<Val, BlobError>): Result<seq<byte>, BlobError>
  {
    match answer
    case Ok(VBlob(b)) => if |b| == n then Ok(b) else Err(Unexpected)
    case Ok(_) => Err(Unexpected)
    case Err(e) => Err(e)
  }

  function WriteReply(answer: Result<Val, BlobError>): Result<(), BlobError>
  {
    match answer
    case Ok(v) => if v == VInt(1) then Ok(()) else Err(Unexpected)
    case Err(e) => Err(e)
  }

  /** What an operation that does not step the machine answers. */
  function Refusal(s: State, op: Op): Reply
  {
    match op
    case DoRead(off, n) => Got(if s.reported then Err(Expired) else if off + n > s.len then Err(OutOfRange) else Ok([]))
    case DoWrite(off, data) =>
      Wrote(if s.reported then Err(Expired) else if s.readOnly then Err(ReadOnly)
            else if off + |data| > s.len then Err(OutOfRange) else Ok(()))
    case DoPeer(_, _, _) => NoReply
  }

  /**
   One operation on a handle. If an earlier one is still loaded, stepping the machine resumes that
   one, and its answer is taken for this one's.
   */
  function DoStep(s: State, op: Op, plan: seq<Interruption>): (r: (State, Reply))
    requires Valid(s)
    ensures Valid(r.0) && r.0.rowid == s.rowid && r.0.len == s.len && r.0.readOnly == s.readOnly
  {
    if op.DoPeer? then
      (s.(rows := Changed(s.rows, op.row, op.cell), lost := s.lost || Hits(op, s.rowid)), NoReply)
    else if !Steps(s, op) then (s, Refusal(s, op))
    else
      var (s', answer) := Resume(s, if s.pending == Nothing then Request(op) else s.pending, plan);
      (s', if op.DoRead? then Got(ReadReply(op.n, answer)) else Wrote(WriteReply(answer)))
  }

  function Run(s: State, ops: seq<Op>, plans: seq<seq<Interruption>>): (r: (State, seq<Reply>))
    requires Valid(s) && |plans| == |ops|
    ensures Valid(r.0) && |r.1| == |ops| && r.0.rowid == s.rowid && r.0.len == s.len && r.0.readOnly == s.readOnly
  {
    if ops == [] then (s, [])
    else
      var (s', replies) := Run(s, ops[..|ops| - 1], plans[..|ops| - 1]);
      var (s'', reply) := DoStep(s', ops[|ops| - 1], plans[|ops| - 1]);
      (s'', replies + [reply])
  }

  /** A handle just opened on a row with bytes. */
  function Fresh(rows: Rows, rowid: int, write: bool): (s: State)
    requires rowid in rows && rows[rowid].Bytes?
    ensures Valid(s)
  {
    State(rowid, |rows[rowid].b|, !write, rows, false, false, Nothing)
  }

  /** What closing commits: a write still loaded is carried out first, unless the row was lost. */
  function Drained(s: State): Rows
    requires Valid(s)
  {
    if s.pending.PendingWrite? && !s.lost then WithBytes(s, s.pending.off, s.pending.data) else s.rows
  }
}
