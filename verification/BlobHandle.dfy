/**
 The incremental-blob handle as the code runs it: a paused program driven by rebinding its
 parameters. Every operation, under any I/O waits and `Busy` returns, takes the step the handle's
 meaning says.
 */
module BlobHandle {
  import opened Common
  import opened BlobVm
  import opened BlobExec
  import opened BlobSpec
  import opened BlobBusy

  /** Step the machine instruction by instruction, up to its next stop or an early return. */
  method Step(rowid: int, write: bool, start: Vm, fire: Option<Interruption>) returns (vm: Vm, e: Event)
    requires start.pc < 25
    ensures (vm, e) == Stepping(rowid, write, start, fire)
  {
    hide Exec, InsnAt, Waits, Partial;
    vm, e := start, Stepped;
    var skip: nat := if fire.Some? then fire.value.skip else 0;
    RunStaysInside(rowid, write, start);
    while e == Stepped
      invariant vm.pc < 25
      invariant if e == Stepped then RunToStop(rowid, write, vm) == RunToStop(rowid, write, start)
                else (vm, e) == RunToStop(rowid, write, start)
      invariant fire.Some? ==>
                  NextWait(rowid, write, start, fire.value.skip) == if e == Stepped then NextWait(rowid, write, vm, skip) else None
      decreases if e == Stepped then 1 + Rank(vm.pc) else 0
    {
      RankDecreases(rowid, write, vm);
      var insn := InsnAt(rowid, write, vm.pc);
      if fire.Some? && Waits(insn, vm) {
        if skip == 0 {
          vm := Partial(insn, vm, fire.value.done);
          return;
        }
        skip := skip - 1;
      }
      vm, e := Exec(insn, vm).0, Exec(insn, vm).1;
    }
  }

  /** The step loop behind every operation: I/O waits are retried, `Busy` is passed on. */
  method PumpStep(rowid: int, write: bool, start: Vm, plan: seq<Interruption>) returns (vm: Vm, r: Pumped)
    requires start.pc < 25
    ensures (vm, r) == Pumping(rowid, write, start, plan)
  {
    hide Stepping;
    vm := start;
    for i := 0 to |plan|
      invariant vm.pc < 25 && Pumping(rowid, write, vm, plan[i..]) == Pumping(rowid, write, start, plan)
    {
      var e;
      vm, e := Step(rowid, write, vm, Some(plan[i]));
      assert plan[i..][0] == plan[i] && plan[i..][1..] == plan[i + 1..];
      if e != Stepped {
        return vm, Stopped(e);
      }
      if plan[i].busy {
        return vm, CutShort;
      }
    }
    var e;
    vm, e := Step(rowid, write, vm, None);
    r := Stopped(e);
  }

  /** The operation the machine holds loaded, by where it stands and what its registers hold. */
  function Loaded(vm: Vm): Pending
  {
    if vm.pc == PC_BLOB_READ && NonNegative(Reg(vm, R_OFF)) && NonNegative(Reg(vm, R_AMT)) then
      PendingRead(Reg(vm, R_OFF).n, Reg(vm, R_AMT).n)
    else if vm.pc == PC_BLOB_WRITE && NonNegative(Reg(vm, R_OFF)) && Reg(vm, R_SRC).VBlob? then
      PendingWrite(Reg(vm, R_OFF).n, Reg(vm, R_SRC).b)
    else Nothing
  }

  /** At the top of the loop, or stopped at the page access of a loaded operation. */
  predicate Resting(vm: Vm)
  {
    vm.cursor.On? && vm.committed.None? && (AtTop(vm.pc) || Loaded(vm) != Nothing)
  }

  /** The parameters ask for `p`. */
  predicate Bound(vm: Vm, p: Pending)
  {
    match p
    case Nothing => false
    case PendingRead(off, n) => Lookup(vm.params, 1) == VInt(1) && Lookup(vm.params, 2) == VInt(off) && Lookup(vm.params, 3) == VInt(n)
    case PendingWrite(off, data) =>
      Lookup(vm.params, 1) == VInt(2) && Lookup(vm.params, 2) == VInt(off) && Lookup(vm.params, 4) == VBlob(data)
  }

  function StateOf(vm: Vm, rowid: int, len: nat, readOnly: bool, expired: bool): State
    requires vm.cursor.On?
  {
    State(rowid, len, readOnly, vm.rows, vm.cursor.expired, expired, Loaded(vm))
  }

  /** What a wait at the page access of the loaded operation leaves behind. */
  lemma PartialLoaded(vm: Vm, p: Pending, rowid: int, len: nat, readOnly: bool, expired: bool, done: nat)
    requires Resting(vm) && Loaded(vm) == p && p != Nothing && vm.cursor.rowid == rowid && !vm.cursor.expired
    requires BlobSpec.Valid(StateOf(vm, rowid, len, readOnly, expired))
    ensures Partial(InsnAt(rowid, !readOnly, vm.pc), vm, done)
         == if p.PendingWrite? then vm.(rows := WithBytes(StateOf(vm, rowid, len, readOnly, expired), p.off, Front(p.data, done))) else vm
  {
    hide InsnAt, Spliced, Front;
    Layout(rowid, !readOnly);
  }

  /** A pumped machine stopped as the meaning of its operation says: cut short, told of expiry, or carried out. */
  predicate Matches(r: Pumped, answer: Result<Val, BlobError>)
  {
    match r
    case CutShort => answer == Err(Busy)
    case Stopped(Row(v)) => answer == if v == VNull then Err(Expired) else Ok(v)
    case Stopped(_) => false
  }

  /** The loaded operation is resumed. */
  lemma LoadedRuns(vm: Vm, at: Vm, p: Pending, rowid: int, len: nat, readOnly: bool, expired: bool, plan: seq<Interruption>)
    requires Resting(at) && Loaded(at) == p && p != Nothing && at.cursor.rowid == rowid
    requires BlobSpec.Valid(StateOf(at, rowid, len, readOnly, expired)) && Quiet(rowid, !readOnly, vm, at)
    ensures var (after, r) := Pumping(rowid, !readOnly, vm, plan);
            var (s, answer) := Resume(StateOf(at, rowid, len, readOnly, expired), p, plan);
            && Matches(r, answer) && Resting(after) && after == at.(pc := after.pc, regs := after.regs, rows := after.rows)
            && StateOf(after, rowid, len, readOnly, expired || answer == Err(Expired)) == s
  {
    hide Pumping, Quiet, OneWait, RunToStop, Cuts, Stored, Spliced, Front, Partial, InsnAt;
    if p.PendingRead? {
      ReadRun(rowid, !readOnly, at, p.off, p.n);
    } else {
      WriteRun(rowid, !readOnly, at, p.off, p.data);
    }
    PumpOne(rowid, !readOnly, vm, at, !at.cursor.expired, plan);
    if !at.cursor.expired {
      PartialLoaded(at, p, rowid, len, readOnly, expired, Stored(plan));
    }
  }

  /** A bound operation is loaded from the top of the loop, and resumed. */
  lemma BoundRuns(vm: Vm, p: Pending, rowid: int, len: nat, readOnly: bool, expired: bool, plan: seq<Interruption>)
    requires Resting(vm) && AtTop(vm.pc) && Bound(vm, p) && vm.cursor.rowid == rowid && Fits(p, len, readOnly)
    requires BlobSpec.Valid(StateOf(vm, rowid, len, readOnly, expired))
    ensures var (after, r) := Pumping(rowid, !readOnly, vm, plan);
            var (s, answer) := Resume(StateOf(vm, rowid, len, readOnly, expired), p, plan);
            && Matches(r, answer) && Resting(after) && after == vm.(pc := after.pc, regs := after.regs, rows := after.rows)
            && StateOf(after, rowid, len, readOnly, expired || answer == Err(Expired)) == s
  {
    hide Pumping, Quiet, Cuts, Stored, Spliced, Front;
    var at: Vm;
    if p.PendingRead? {
      at := ReadLoads(rowid, !readOnly, vm, p.off, p.n);
    } else {
      at := WriteLoads(rowid, !readOnly, vm, p.off, p.data);
    }
    LoadedRuns(vm, at, p, rowid, len, readOnly, expired, plan);
  }

  class Blob {
    const rowid: int
    const readOnly: bool
    const len: nat
    var vm: Vm
    var expired: bool

    constructor (rowid: int, readOnly: bool, len: nat, vm: Vm)
      ensures this.rowid == rowid && this.readOnly == readOnly && this.len == len && this.vm == vm && !expired
    {
      this.rowid, this.readOnly, this.len, this.vm, expired := rowid, readOnly, len, vm, false;
    }

    /** What every operation keeps, whether it was answered or returned `Busy`. */
    ghost predicate Valid()
      reads this
    {
      Resting(vm) && vm.cursor.rowid == rowid && BlobSpec.Valid(StateOf(vm, rowid, len, readOnly, expired))
    }

    /** What this handle means. */
    ghost function State(): (s: State)
      requires Valid()
      reads this
      ensures BlobSpec.Valid(s)
    {
      StateOf(vm, rowid, len, readOnly, expired)
    }

    method Bind(index: nat, v: Val)
      modifies this`vm
      ensures vm == old(vm).(params := old(vm).params[index := v])
    {
      vm := vm.(params := vm.params[index := v]);
    }

    /** Run the operation the machine holds, or else the bound one `p`, to its answer; a null answer latches expiry. */
    method StepOp(plan: seq<Interruption>, ghost p: Pending) returns (r: Result<Val, BlobError>)
      requires Valid() && Fits(p, len, readOnly) && Bound(vm, p)
      modifies this`vm, this`expired
      ensures Valid()
      ensures (State(), r) == Resume(old(State()), if old(State()).pending == Nothing then p else old(State()).pending, plan)
    {
      hide Pumping, Resume, Quiet, Bound, InsnAt;
      if AtTop(vm.pc) {
        BoundRuns(vm, p, rowid, len, readOnly, expired, plan);
      } else {
        QuietSelf(rowid, !readOnly, vm);
        LoadedRuns(vm, vm, Loaded(vm), rowid, len, readOnly, expired, plan);
      }
      var pumped;
      vm, pumped := PumpStep(rowid, !readOnly, vm, plan);
      match pumped {
        case CutShort => r := Err(Busy);
        case Stopped(Row(v)) =>
          if v == VNull {
            expired := true;
            r := Err(Expired);
          } else {
            r := Ok(v);
          }
        case Stopped(_) => r := Err(Unexpected);
      }
    }

    /** Read `n` bytes at `off`. The plan says where the machine waits or is cut short. */
    method Read(off: nat, n: nat, plan: seq<Interruption>) returns (r: Result<seq<byte>, BlobError>)
      requires Valid()
      modifies this`vm, this`expired
      ensures Valid() && (State(), Got(r)) == DoStep(old(State()), DoRead(off, n), plan)
    {
      hide Resume, Loaded;
      if expired {
        return Err(Expired);
      }
      if off + n > len {
        return Err(OutOfRange);
      }
      if n == 0 {
        return Ok([]);
      }
      Bind(1, VInt(1));
      Bind(2, VInt(off));
      Bind(3, VInt(n));
      LoadedKept(old(vm), vm);
      var answer := StepOp(plan, PendingRead(off, n));
      match answer {
        case Ok(VBlob(b)) => r := if |b| == n then Ok(b) else Err(Unexpected);
        case Ok(_) => r := Err(Unexpected);
        case Err(e) => r := Err(e);
      }
    }

    /** Write `data` at `off`; the value cannot change its length. */
    method Write(off: nat, data: seq<byte>, plan: seq<Interruption>) returns (r: Result<(), BlobError>)
      requires Valid()
      modifies this`vm, this`expired
      ensures Valid() && (State(), Wrote(r)) == DoStep(old(State()), DoWrite(off, data), plan)
    {
      hide Resume, Loaded;
      if expired {
        return Err(Expired);
      }
      if readOnly {
        return Err(ReadOnly);
      }
      if off + |data| > len {
        return Err(OutOfRange);
      }
      if data == [] {
        return Ok(());
      }
      Bind(1, VInt(2));
      Bind(2, VInt(off));
      Bind(4, VBlob(data));
      LoadedKept(old(vm), vm);
      var answer := StepOp(plan, PendingWrite(off, data));
      match answer {
        case Ok(v) => r := if v == VInt(1) then Ok(()) else Err(Unexpected);
        case Err(e) => r := Err(e);
      }
    }

    /** Another statement writes row `row`; the cursor is told which one only if `known`. */
    method PeerWrite(row: int, known: bool, cell: Option<Cell>)
      requires Valid()
      modifies this`vm
      ensures Valid() && State() == DoStep(old(State()), DoPeer(row, known, cell), []).0
    {
      vm := vm.(rows := Changed(vm.rows, row, cell));
      if !known || row == rowid {
        vm := vm.(cursor := On(rowid, true));
      }
    }

    /** Leave the loop and halt; the result row of an operation left loaded is drained first. */
    method Close(plans: seq<seq<Interruption>>) returns (r: Result<(), BlobError>)
      requires Valid()
      modifies this`vm
      ensures r == Ok(()) || r == Err(Busy)
      ensures r == Ok(()) ==> vm.committed == Some(Drained(old(State())))
      ensures (forall i :: 0 <= i < |plans| ==> Patient(plans[i])) ==> r == Ok(())
    {
      hide Pumping, Quiet, InsnAt, Resume, Loaded;
      Bind(1, VInt(0));
      LoadedKept(old(vm), vm);
      var i := 0;
      var rows := true;
      while rows
        invariant if rows then Valid() && Lookup(vm.params, 1) == VInt(0) && Drained(State()) == old(Drained(State()))
                  else vm.committed == Some(old(Drained(State())))
        decreases rows, !AtTop(vm.pc)
      {
        var plan := if i < |plans| then plans[i] else [];
        RestingInside(vm);
        WaitsDoNotMatter(rowid, !readOnly, vm, plan);
        if AtTop(vm.pc) {
          CloseRun(rowid, !readOnly, vm);
          TopIsUnloaded(vm);
        } else {
          QuietSelf(rowid, !readOnly, vm);
          LoadedRuns(vm, vm, Loaded(vm), rowid, len, readOnly, expired, plan);
          ResumeDrains(State(), plan);
        }
        var pumped;
        vm, pumped := PumpStep(rowid, !readOnly, vm, plan);
        if pumped.CutShort? {
          return Err(Busy);
        }
        if pumped.e == Failed {
          return Err(Unexpected);
        }
        rows := pumped.e.Row?;
        i := i + 1;
      }
      r := Ok(());
    }
  }

  lemma LoadedKept(a: Vm, b: Vm)
    requires b == a.(params := b.params)
    ensures Loaded(b) == Loaded(a)
  {
  }

  lemma RestingInside(vm: Vm)
    requires Resting(vm)
    ensures vm.pc < 25
  {
  }

  lemma TopIsUnloaded(vm: Vm)
    requires AtTop(vm.pc)
    ensures Loaded(vm) == Nothing
  {
  }

  /** Letting the loaded operation finish does not change what closing commits. */
  lemma ResumeDrains(s: State, plan: seq<Interruption>)
    requires BlobSpec.Valid(s) && s.pending != Nothing
    ensures var (after, answer) := Resume(s, s.pending, plan);
            answer != Err(Busy) ==> after.pending == Nothing && Drained(after) == Drained(s)
  {
    hide Spliced, Front, Cuts, Stored;
  }

  /** Open a handle: build the program and run it to its ready row. */
  method BlobOpen(rows: Rows, rowid: int, write: bool, plan: seq<Interruption>) returns (r: Result<Blob, BlobError>)
    ensures r.Ok? ==> fresh(r.value) && rowid in rows && rows[rowid].Bytes?
    ensures r.Ok? ==> r.value.Valid() && r.value.State() == Fresh(rows, rowid, write)
    ensures r.Err? && r.error != Busy ==> !(rowid in rows && rows[rowid].Bytes?)
    ensures Patient(plan) ==> r != Err(Busy)
  {
    hide Pumping;
    var program := BuildBlobProgram(rowid, write);
    if program.None? {
      return Err(Unexpected);
    }
    OpenRun(rowid, write, rows, map[]);
    WaitsDoNotMatter(rowid, write, Vm(0, map[], map[], NoCursor, rows, None), plan);
    var vm, pumped := PumpStep(rowid, write, Vm(0, map[], map[], NoCursor, rows, None), plan);
    match pumped {
      case CutShort => r := Err(Busy);
      case Stopped(Row(VInt(n))) =>
        if n >= 0 {
          var blob := new Blob(rowid, !write, n, vm);
          r := Ok(blob);
        } else {
          r := Err(Unexpected);
        }
      case Stopped(_) => r := Err(Unexpected);
    }
  }

  // ---------------------------------------------------------------- whole runs

  /** Any sequence of operations and peer writes, under any waits and `Busy` returns, is a run of the handle's meaning. */
  method RunOps(blob: Blob, ops: seq<Op>, plans: seq<seq<Interruption>>) returns (replies: seq<Reply>)
    requires blob.Valid() && |plans| == |ops|
    modifies blob`vm, blob`expired
    ensures blob.Valid() && (blob.State(), replies) == Run(old(blob.State()), ops, plans)
  {
    hide DoStep;
    replies := [];
    for i := 0 to |ops|
      invariant blob.Valid() && (blob.State(), replies) == Run(old(blob.State()), ops[..i], plans[..i])
    {
      assert ops[..i + 1][..i] == ops[..i] && plans[..i + 1][..i] == plans[..i];
      ghost var s := blob.State();
      var reply := OneOp(blob, ops[i], plans[i]);
      assert (blob.State(), reply) == DoStep(s, ops[i], plans[i]);
      replies := replies + [reply];
    }
    assert ops[..|ops|] == ops && plans[..|ops|] == plans;
  }

  method OneOp(blob: Blob, op: Op, plan: seq<Interruption>) returns (reply: Reply)
    requires blob.Valid()
    modifies blob`vm, blob`expired
    ensures blob.Valid() && (blob.State(), reply) == DoStep(old(blob.State()), op, plan)
  {
    match op {
      case DoRead(off, n) =>
        hide DoStep;
        var r := blob.Read(off, n, plan);
        reply := Got(r);
      case DoWrite(off, data) =>
        hide DoStep;
        var w := blob.Write(off, data, plan);
        reply := Wrote(w);
      case DoPeer(row, known, cell) =>
        blob.PeerWrite(row, known, cell);
        reply := NoReply;
    }
  }

  /**
   A whole session: open, any operations and peer writes, close. Whatever waits and `Busy` returns
   there are, the replies and the committed rows are those of the handle's meaning; when no reply is
   `Busy`, they are the byte array's, and every accepted write is committed, expired or not.
   */
  method Session(rows: Rows, rowid: int, write: bool, ops: seq<Op>, opening: seq<Interruption>, plans: seq<seq<Interruption>>,
                 closing: seq<seq<Interruption>>)
    returns (replies: Result<seq<Reply>, BlobError>, committed: Option<Rows>)
    requires |plans| == |ops|
    ensures replies.Err? && replies.error != Busy ==> !(rowid in rows && rows[rowid].Bytes?)
    ensures replies.Ok? ==>
              && rowid in rows && rows[rowid].Bytes?
              && var (s, answers) := Run(Fresh(rows, rowid, write), ops, plans);
                 && replies.value == answers
                 && (committed.Some? ==> committed.value == Drained(s))
                 && (NoneBusy(answers) ==>
                       && (View(s), answers) == SpecRun(rowid, View(Fresh(rows, rowid, write)), ops)
                       && (committed.Some? ==> committed.value == RowsRun(rowid, rows, ops, answers)))
    ensures Patient(opening) && (forall i :: 0 <= i < |closing| ==> Patient(closing[i])) ==>
              replies != Err(Busy) && (replies.Ok? ==> committed.Some?)
  {
    hide Run, SpecRun, RowsRun, NoneBusy;
    var handle := BlobOpen(rows, rowid, write, opening);
    if handle.Err? {
      return Err(handle.error), None;
    }
    var blob := handle.value;
    var answers := RunOps(blob, ops, plans);
    if NoneBusy(answers) {
      RunIsArray(Fresh(rows, rowid, write), ops, plans);
    }
    var closed := blob.Close(closing);
    replies, committed := Ok(answers), if closed.Ok? then blob.vm.committed else None;
  }
}
