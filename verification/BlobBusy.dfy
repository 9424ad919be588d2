/**
 Runs of a blob handle whose operations may return `Busy`: when the handle answers as the byte array
 does, exactly what goes wrong otherwise, and what is stored in every case.
 */
module BlobBusy {
  import opened Common
  import opened BlobVm
  import opened BlobExec
  import opened BlobSpec

  predicate IsBusy(reply: Reply) { reply == Got(Err(Busy)) || reply == Wrote(Err(Busy)) }

  predicate NoneBusy(replies: seq<Reply>) { forall i :: 0 <= i < |replies| ==> !IsBusy(replies[i]) }

  // ---------------------------------------------------------------- without Busy: the byte array and its rows

  /** What one operation does to the stored rows, told by its reply: an accepted write stores its bytes, whether or not the handle has expired since. */
  function RowStep(rowid: int, rows: Rows, op: Op, reply: Reply): Rows
  {
    if op.DoPeer? then Changed(rows, op.row, op.cell)
    else if op.DoWrite? && reply == Wrote(Ok(())) && rowid in rows && rows[rowid].Bytes? && op.off + |op.data| <= |rows[rowid].b| then
      rows[rowid := Bytes(Spliced(rows[rowid].b, op.off, op.data))]
    else rows
  }

  function RowsRun(rowid: int, rows: Rows, ops: seq<Op>, replies: seq<Reply>): Rows
    requires |replies| == |ops|
  {
    if ops == [] then rows
    else
      var n := |ops| - 1;
      RowStep(rowid, RowsRun(rowid, rows, ops[..n], replies[..n]), ops[n], replies[n])
  }

  lemma SpliceNothing(rows: Rows, k: int, off: nat)
    requires k in rows && rows[k].Bytes? && off <= |rows[k].b|
    ensures rows[k := Bytes(Spliced(rows[k].b, off, []))] == rows
  {
    assert Spliced(rows[k].b, off, []) == rows[k].b;
  }

  /** An operation that finds nothing left over and does not return `Busy` is the byte array's. */
  lemma AnswersAsArray(s: State, op: Op, plan: seq<Interruption>)
    requires Valid(s) && s.pending == Nothing && !IsBusy(DoStep(s, op, plan).1)
    ensures var (s', reply) := DoStep(s, op, plan);
            && (View(s'), reply) == SpecStep(s.rowid, View(s), op)
            && s'.pending == Nothing && s'.rows == RowStep(s.rowid, s.rows, op, reply)
  {
    hide Spliced;
    if op.DoWrite? && op.data == [] && s.rowid in s.rows && s.rows[s.rowid].Bytes? && op.off <= |s.rows[s.rowid].b| {
      SpliceNothing(s.rows, s.rowid, op.off);
    }
  }

  /** Until an operation returns `Busy`, answers and rows are the byte array's, under any waits and any peer writes. */
  lemma {:induction false} RunIsArray(s: State, ops: seq<Op>, plans: seq<seq<Interruption>>)
    requires Valid(s) && s.pending == Nothing && |plans| == |ops| && NoneBusy(Run(s, ops, plans).1)
    ensures var (s', replies) := Run(s, ops, plans);
            && (View(s'), replies) == SpecRun(s.rowid, View(s), ops)
            && s'.pending == Nothing && s'.rows == RowsRun(s.rowid, s.rows, ops, replies)
    decreases |ops|
  {
    hide DoStep, SpecStep, RowStep;
    if ops != [] {
      var n := |ops| - 1;
      var (s', replies) := Run(s, ops[..n], plans[..n]);
      assert Run(s, ops, plans).1[..n] == replies;
      assert forall i :: 0 <= i < n ==> replies[i] == Run(s, ops, plans).1[i];
      RunIsArray(s, ops[..n], plans[..n]);
      assert DoStep(s', ops[n], plans[n]).1 == Run(s, ops, plans).1[n];
      AnswersAsArray(s', ops[n], plans[n]);
    }
  }

  /** The byte the last accepted write covering `i` stored, or the initial one. */
  function LastAccepted(ops: seq<Op>, replies: seq<Reply>, init: seq<byte>, i: nat): byte
    requires i < |init| && |replies| == |ops|
  {
    if ops == [] then init[i]
    else
      var n := |ops| - 1;
      if Covers(ops[n], |init|, i) && replies[n] == Wrote(Ok(())) then ops[n].data[i - ops[n].off]
      else LastAccepted(ops[..n], replies[..n], init, i)
  }

  /** Writes accepted before the handle expired stay stored: only a peer that writes this very row can undo them. */
  lemma {:induction false} AcceptedWritesStay(rowid: int, rows: Rows, ops: seq<Op>, replies: seq<Reply>, i: nat)
    requires |replies| == |ops| && rowid in rows && rows[rowid].Bytes? && i < |rows[rowid].b|
    requires forall k :: 0 <= k < |ops| && ops[k].DoPeer? ==> ops[k].row != rowid
    ensures var after := RowsRun(rowid, rows, ops, replies);
            && rowid in after && after[rowid].Bytes? && |after[rowid].b| == |rows[rowid].b|
            && after[rowid].b[i] == LastAccepted(ops, replies, rows[rowid].b, i)
    decreases |ops|
  {
    if ops != [] {
      var n := |ops| - 1;
      assert forall k :: 0 <= k < n ==> ops[..n][k] == ops[k];
      AcceptedWritesStay(rowid, rows, ops[..n], replies[..n], i);
    }
  }

  // ---------------------------------------------------------------- with Busy: what a caller can tell

  /** The reply shows that the machine was stepped: not a refusal, an empty access or a peer's write. */
  predicate ShowsStep(op: Op, reply: Reply)
  {
    match reply
    case Got(Ok(b)) => b != []
    case Got(Err(e)) => e != OutOfRange
    case Wrote(Ok(_)) => op.DoWrite? && op.data != []
    case Wrote(Err(e)) => e != OutOfRange && e != ReadOnly
    case NoReply => false
  }

  /** The last operation that stepped the machine returned `Busy`. A caller sees this from its own calls and their replies. */
  predicate LastStepBusy(ops: seq<Op>, replies: seq<Reply>)
    requires |replies| == |ops|
  {
    if ops == [] then false
    else
      var n := |ops| - 1;
      if ShowsStep(ops[n], replies[n]) then IsBusy(replies[n]) else LastStepBusy(ops[..n], replies[..n])
  }

  /** An operation is left loaded exactly when the last one that stepped returned `Busy`. */
  lemma {:induction false} LoadedIffBusy(s: State, ops: seq<Op>, plans: seq<seq<Interruption>>)
    requires Valid(s) && s.pending == Nothing && |plans| == |ops|
    ensures var (s', replies) := Run(s, ops, plans);
            && (s'.pending != Nothing <==> LastStepBusy(ops, replies))
            && (s'.reported && !s.reported ==> s'.pending == Nothing)
            && (s.reported ==> s'.reported && s'.pending == Nothing)
    decreases |ops|
  {
    if ops != [] {
      var n := |ops| - 1;
      LoadedIffBusy(s, ops[..n], plans[..n]);
      var (s', replies) := Run(s, ops[..n], plans[..n]);
      assert Run(s, ops, plans).1[..n] == replies;
      OneStepBusy(s', ops[n], plans[n]);
    }
  }

  lemma OneStepBusy(s: State, op: Op, plan: seq<Interruption>)
    requires Valid(s) && (s.reported ==> s.pending == Nothing)
    ensures var (s', reply) := DoStep(s, op, plan);
            && (s'.pending != Nothing <==> if ShowsStep(op, reply) then IsBusy(reply) else s.pending != Nothing)
            && (s'.reported ==> s'.pending == Nothing) && (s.reported ==> s'.reported)
  {
    hide Spliced;
  }

  // ---------------------------------------------------------------- with Busy: when the next answer is right

  /** The operation, left to run, answers and leaves the handle as the byte array does. */
  predicate Right(s: State, op: Op)
    requires Valid(s)
  {
    var (s', reply) := DoStep(s, op, []);
    (View(s'), reply) == SpecStep(s.rowid, View(s), op)
  }

  /** With an operation left loaded, some operation goes wrong unless there is only one there is to ask. */
  lemma WrongWitness(s: State) returns (op: Op)
    requires Valid(s) && s.pending != Nothing && !s.lost && !s.reported && !(s.readOnly && s.len == 1)
    ensures !Right(s, op)
  {
    if s.pending.PendingWrite? {
      op := DoRead(0, 1);
    } else if s.readOnly {
      op := DoRead(0, if s.pending.n == 1 then 2 else 1);
    } else {
      op := DoWrite(s.pending.off, [0]);
    }
  }

  lemma AlwaysRight(s: State, op: Op)
    requires Valid(s) && (s.pending == Nothing || s.lost || (s.readOnly && s.len == 1))
    ensures Right(s, op)
  {
    hide Spliced;
    if s.pending == Nothing {
      AnswersAsArray(s, op, []);
    }
  }

  /** Someone else wrote the row, or a row the cursor was not told. */
  predicate PeerHit(rowid: int, ops: seq<Op>) { exists i :: 0 <= i < |ops| && Hits(ops[i], rowid) }

  lemma {:induction false} LostIffHit(s: State, ops: seq<Op>, plans: seq<seq<Interruption>>)
    requires Valid(s) && !s.lost && |plans| == |ops|
    ensures Run(s, ops, plans).0.lost <==> PeerHit(s.rowid, ops)
    decreases |ops|
  {
    if ops != [] {
      var n := |ops| - 1;
      LostIffHit(s, ops[..n], plans[..n]);
      assert forall i :: 0 <= i < n ==> ops[..n][i] == ops[i];
      assert PeerHit(s.rowid, ops) <==> PeerHit(s.rowid, ops[..n]) || Hits(ops[n], s.rowid);
    }
  }

  /**
   After any run of a fresh handle, the next operation answers as the byte array whatever it is
   exactly when the last one that stepped did not return `Busy`; apart from that, only when a peer's
   write has reached the row, so that every answer is expiry, or when the one access there can be is
   of the one byte of a read-only value.
   */
  lemma NextIsRightIff(rows: Rows, rowid: int, write: bool, ops: seq<Op>, plans: seq<seq<Interruption>>)
    requires rowid in rows && rows[rowid].Bytes? && |plans| == |ops|
    ensures var (s, replies) := Run(Fresh(rows, rowid, write), ops, plans);
            (forall op :: Right(s, op))
            <==> !LastStepBusy(ops, replies) || PeerHit(rowid, ops) || (!write && |rows[rowid].b| == 1)
  {
    hide Right, Run, LastStepBusy, PeerHit;
    var start := Fresh(rows, rowid, write);
    var (s, replies) := Run(start, ops, plans);
    LoadedIffBusy(start, ops, plans);
    LostIffHit(start, ops, plans);
    if s.pending == Nothing || s.lost || (s.readOnly && s.len == 1) {
      forall op ensures Right(s, op) {
        AlwaysRight(s, op);
      }
    } else {
      var op := WrongWitness(s);
    }
  }

  // ---------------------------------------------------------------- with Busy: what goes wrong

  /** A write that returned `Busy` is carried out by the next read, which is told of an internal error instead of its bytes. */
  lemma AbandonedWriteLands(s: State, off: nat, data: seq<byte>, plan: seq<Interruption>, o: nat, n: nat)
    requires Valid(s) && s.pending == Nothing && !s.lost && !s.readOnly && !s.reported
    requires data != [] && off + |data| <= s.len && n > 0 && o + n <= s.len && Cuts(plan)
    ensures var (cut, busy) := DoStep(s, DoWrite(off, data), plan);
            var (after, reply) := DoStep(cut, DoRead(o, n), []);
            && busy == Wrote(Err(Busy)) && reply == Got(Err(Unexpected))
            && after.pending == Nothing && after.rows == WithBytes(s, off, data)
  {
    hide Spliced, Front;
    StoredOver(s, off, data, Stored(plan));
  }

  /** After a read that returned `Busy`, a read of the same length elsewhere silently gets the first one's bytes. */
  lemma AbandonedReadAnswers(s: State, off: nat, n: nat, plan: seq<Interruption>, o: nat)
    requires Valid(s) && s.pending == Nothing && !s.lost && !s.reported
    requires n > 0 && off + n <= s.len && o + n <= s.len && Cuts(plan)
    ensures var (cut, busy) := DoStep(s, DoRead(off, n), plan);
            busy == Got(Err(Busy)) && DoStep(cut, DoRead(o, n), []) == (s, Got(Ok(s.rows[s.rowid].b[off..off + n])))
  {
  }

  lemma StoredOver(s: State, off: nat, data: seq<byte>, done: nat)
    requires Holds(s) && off + |data| <= s.len
    ensures var t := s.(rows := WithBytes(s, off, Front(data, done)));
            Holds(t) && WithBytes(t, off, data) == WithBytes(s, off, data)
            && forall m: nat :: WithBytes(t, off, Front(data, m)) == WithBytes(s, off, Front(data, if done < m then m else done))
  {
    hide Spliced, Front;
    var b := s.rows[s.rowid].b;
    SpliceOver(b, off, data, done);
    forall m: nat
      ensures Spliced(Spliced(b, off, Front(data, done)), off, Front(data, m)) == Spliced(b, off, Front(data, if done < m then m else done))
    {
      FrontTwice(b, off, data, done, m);
    }
  }

  // ---------------------------------------------------------------- with Busy: retrying

  /** The same operation again and again, once for each plan. */
  function Retried(s: State, op: Op, plans: seq<seq<Interruption>>): (r: State)
    requires Valid(s)
    ensures Valid(r)
    decreases |plans|
  {
    if plans == [] then s else DoStep(Retried(s, op, plans[..|plans| - 1]), op, plans[|plans| - 1]).0
  }

  /** `t` is `s` with `op` loaded after any number of `Busy` returns: nothing but a prefix of its own bytes is stored. */
  ghost predicate Trying(s: State, t: State, op: Op)
    requires Valid(s) && Steps(s, op)
  {
    && !s.lost && t.pending == Request(op)
    && t == s.(pending := t.pending, rows := t.rows)
    && if op.DoWrite? then exists done: nat :: t.rows == WithBytes(s, op.off, Front(op.data, done)) else t.rows == s.rows
  }

  lemma TryAgain(s: State, t: State, op: Op, plan: seq<Interruption>)
    requires Valid(s) && s.pending == Nothing && Steps(s, op) && Valid(t) && (t == s || Trying(s, t, op))
    ensures var (u, reply) := DoStep(t, op, plan);
            if IsBusy(reply) then Trying(s, u, op)
            else (View(u), reply) == SpecStep(s.rowid, View(s), op) && u.pending == Nothing
  {
    hide Spliced, Front;
    if t == s {
      if !IsBusy(DoStep(t, op, plan).1) {
        AnswersAsArray(s, op, plan);
      }
    } else if op.DoWrite? {
      var done: nat :| t.rows == WithBytes(s, op.off, Front(op.data, done));
      StoredOver(s, op.off, op.data, done);
    }
  }

  /** An operation retried until it no longer returns `Busy` answers as the byte array would have the first time. */
  lemma {:induction false} RetryingIsRight(s: State, op: Op, plans: seq<seq<Interruption>>, last: seq<Interruption>)
    requires Valid(s) && s.pending == Nothing && Steps(s, op)
    requires forall i :: 0 <= i < |plans| ==> IsBusy(DoStep(Retried(s, op, plans[..i]), op, plans[i]).1)
    ensures Retried(s, op, plans) == s || Trying(s, Retried(s, op, plans), op)
    ensures var (after, reply) := DoStep(Retried(s, op, plans), op, last);
            !IsBusy(reply) ==> (View(after), reply) == SpecStep(s.rowid, View(s), op) && after.pending == Nothing
    decreases |plans|
  {
    hide DoStep, SpecStep, Trying;
    if plans != [] {
      var n := |plans| - 1;
      assert forall i :: 0 <= i < n ==> plans[..n][..i] == plans[..i];
      RetryingIsRight(s, op, plans[..n], plans[n]);
      TryAgain(s, Retried(s, op, plans[..n]), op, plans[n]);
      assert IsBusy(DoStep(Retried(s, op, plans[..n]), op, plans[n]).1);
    }
    TryAgain(s, Retried(s, op, plans), op, last);
  }
}
