/** Execution of the blob program up to its next stop. */
module BlobExec {
  import opened Common
  import opened BlobVm

  /** A stored column value: addressable bytes (text or blob), or a null, integer or real. */
  datatype Cell = Bytes(b: seq<byte>) | NotAddressable

  type Rows = map<int, Cell>

  /** The cursor remembers whether the row it is pinned to was written by someone else. */
  datatype Cursor = NoCursor | Opened | On(rowid: int, expired: bool)

  /** Machine state; `committed` is what the program's transaction left when it halted. */
  datatype Vm = Vm(pc: nat, regs: map<nat, Val>, params: map<nat, Val>, cursor: Cursor, rows: Rows, committed: Option<Rows>)

  datatype Event = Stepped | Row(v: Val) | Done | Failed

  function Lookup(m: map<nat, Val>, i: nat): Val { if i in m then m[i] else VNull }

  function Reg(vm: Vm, r: nat): Val { Lookup(vm.regs, r) }

  function Put(vm: Vm, r: nat, v: Val): Vm { vm.(regs := vm.regs[r := v], pc := vm.pc + 1) }

  function Spliced(b: seq<byte>, off: nat, data: seq<byte>): (r: seq<byte>)
    requires off + |data| <= |b|
    ensures |r| == |b|
  {
    b[..off] + data + b[off + |data|..]
  }

  predicate NonNegative(v: Val) { v.VInt? && v.n >= 0 }

  /** The bytes under the cursor, when it is on an addressable value. */
  function Pinned(vm: Vm): Option<seq<byte>>
  {
    if vm.cursor.On? && vm.cursor.rowid in vm.rows && vm.rows[vm.cursor.rowid].Bytes? then Some(vm.rows[vm.cursor.rowid].b)
    else None
  }

  /** One instruction. An expired handle is told so by a null, without failing the program. */
  function Exec(insn: Insn, vm: Vm): (Vm, Event)
  {
    match insn
    case Init(t) => if t.Offset? then (vm.(pc := t.pc), Stepped) else (vm, Failed)
    case Transaction(_) => (vm.(pc := vm.pc + 1), Stepped)
    case Open(_) => (vm.(cursor := Opened, pc := vm.pc + 1), Stepped)
    case Integer(v, d) => (Put(vm, d, VInt(v)), Stepped)
    case SeekRowid(src, t) =>
      if Reg(vm, src).VInt? && Reg(vm, src).n in vm.rows then
        (vm.(cursor := On(Reg(vm, src).n, false), pc := vm.pc + 1), Stepped)
      else if t.Offset? then (vm.(pc := t.pc), Stepped)
      else (vm, Failed)
    case BlobLen(d) =>
      if Pinned(vm).None? then (vm, Failed) else (Put(vm, d, VInt(|Pinned(vm).value|)), Stepped)
    case ResultRow(r) => (vm.(pc := vm.pc + 1), Row(Reg(vm, r)))
    case Variable(i, d) => (Put(vm, d, Lookup(vm.params, i)), Stepped)
    case Eq(l, r, t) =>
      if Reg(vm, l).VInt? && Reg(vm, l) == Reg(vm, r) then
        if t.Offset? then (vm.(pc := t.pc), Stepped) else (vm, Failed)
      else (vm.(pc := vm.pc + 1), Stepped)
    case BlobRead(o, a, d) =>
      if !NonNegative(Reg(vm, o)) || !NonNegative(Reg(vm, a)) || !vm.cursor.On? then (vm, Failed)
      else if vm.cursor.expired then (Put(vm, d, VNull), Stepped)
      else if Pinned(vm).None? || Reg(vm, o).n + Reg(vm, a).n > |Pinned(vm).value| then (vm, Failed)
      else (Put(vm, d, VBlob(Pinned(vm).value[Reg(vm, o).n..Reg(vm, o).n + Reg(vm, a).n])), Stepped)
    case BlobWrite(o, src, d) =>
      if !NonNegative(Reg(vm, o)) || !Reg(vm, src).VBlob? || !vm.cursor.On? then (vm, Failed)
      else if vm.cursor.expired then (Put(vm, d, VNull), Stepped)
      else if Pinned(vm).None? || Reg(vm, o).n + |Reg(vm, src).b| > |Pinned(vm).value| then (vm, Failed)
      else
        var b := Spliced(Pinned(vm).value, Reg(vm, o).n, Reg(vm, src).b);
        (Put(vm.(rows := vm.rows[vm.cursor.rowid := Bytes(b)]), d, VInt(1)), Stepped)
    case Goto(t) => if t.Offset? then (vm.(pc := t.pc), Stepped) else (vm, Failed)
    case Halt(failed) => if failed then (vm, Failed) else (vm.(committed := Some(vm.rows)), Done)
  }

  /** The instruction at each offset of the blob program. */
  function InsnAt(rowid: int, write: bool, pc: nat): Insn
    requires pc < 25
  {
    BlobProgram(rowid, write)[pc]
  }

  lemma Layout(rowid: int, write: bool)
    ensures InsnAt(rowid, write, 0) == Init(Offset(23)) && InsnAt(rowid, write, 1) == Open(write)
    ensures InsnAt(rowid, write, 2) == Integer(rowid, R_ROWID) && InsnAt(rowid, write, 3) == SeekRowid(R_ROWID, Offset(21))
    ensures InsnAt(rowid, write, 4) == BlobLen(R_READY) && InsnAt(rowid, write, 5) == ResultRow(R_READY)
    ensures InsnAt(rowid, write, 6) == Variable(1, R_OP) && InsnAt(rowid, write, 7) == Integer(0, R_ZERO)
    ensures InsnAt(rowid, write, 8) == Eq(R_OP, R_ZERO, Offset(20)) && InsnAt(rowid, write, 9) == Variable(2, R_OFF)
    ensures InsnAt(rowid, write, 10) == Integer(2, R_TWO) && InsnAt(rowid, write, 11) == Eq(R_OP, R_TWO, Offset(16))
    ensures InsnAt(rowid, write, 12) == Variable(3, R_AMT) && InsnAt(rowid, write, 13) == BlobRead(R_OFF, R_AMT, R_DATA)
    ensures InsnAt(rowid, write, 14) == ResultRow(R_DATA) && InsnAt(rowid, write, 15) == Goto(Offset(6))
    ensures InsnAt(rowid, write, 16) == Variable(4, R_SRC) && InsnAt(rowid, write, 17) == BlobWrite(R_OFF, R_SRC, R_ACK)
    ensures InsnAt(rowid, write, 18) == ResultRow(R_ACK) && InsnAt(rowid, write, 19) == Goto(Offset(6))
    ensures InsnAt(rowid, write, 20) == Goto(Offset(22)) && InsnAt(rowid, write, 21) == Halt(true)
    ensures InsnAt(rowid, write, 22) == Halt(false) && InsnAt(rowid, write, 23) == Transaction(write)
    ensures InsnAt(rowid, write, 24) == Goto(Offset(1))
  {
  }

  /** Instructions left, at most, until the program stops: every cycle passes through a result row. */
  function Rank(pc: nat): nat
    requires pc < 25
  {
    [7, 4, 3, 2, 1, 0, 8, 7, 6, 5, 4, 3, 2, 1, 0, 9, 2, 1, 0, 9, 1, 0, 0, 6, 5][pc]
  }

  lemma Flow(insn: Insn, vm: Vm)
    ensures var (next, e) := Exec(insn, vm);
            && (e == Stepped ==>
                  || (next.pc == vm.pc + 1 && !insn.Goto? && !insn.Init? && !insn.ResultRow? && !insn.Halt?)
                  || (Jumps(insn) && insn.target == Offset(next.pc)))
            && (e.Row? ==> insn.ResultRow? && next.pc == vm.pc + 1)
            && (e == Done || e == Failed ==> next.pc == vm.pc)
  {
  }

  lemma RankDecreases(rowid: int, write: bool, vm: Vm)
    requires vm.pc < 25
    ensures var (next, e) := Exec(InsnAt(rowid, write, vm.pc), vm);
            && next.pc < 25
            && (e == Stepped ==> Rank(next.pc) < Rank(vm.pc))
  {
    hide InsnAt, Exec;
    Layout(rowid, write);
    Flow(InsnAt(rowid, write, vm.pc), vm);
  }

  /** Run until a result row, the end, or a failure. */
  function RunToStop(rowid: int, write: bool, vm: Vm): (Vm, Event)
    requires vm.pc < 25
    decreases Rank(vm.pc)
  {
    RankDecreases(rowid, write, vm);
    var (next, e) := Exec(InsnAt(rowid, write, vm.pc), vm);
    if e == Stepped then RunToStop(rowid, write, next) else (next, e)
  }

  // ---------------------------------------------------------------- waiting

  /**
   The instruction can return early, waiting for a page or a lock: transaction start and end, and
   page access. An expired cursor is turned away before it looks at a page.
   */
  predicate Waits(insn: Insn, vm: Vm)
  {
    match insn
    case Transaction(_) => true
    case Open(_) => true
    case SeekRowid(_, _) => true
    case BlobLen(_) => true
    case BlobRead(o, a, _) => NonNegative(Reg(vm, o)) && NonNegative(Reg(vm, a)) && vm.cursor.On? && !vm.cursor.expired
    case BlobWrite(o, src, _) => NonNegative(Reg(vm, o)) && Reg(vm, src).VBlob? && vm.cursor.On? && !vm.cursor.expired
    case Halt(failed) => !failed
    case _ => false
  }

  /** What an early return leaves behind: a write may already have stored its first bytes, page by page. */
  function Partial(insn: Insn, vm: Vm, done: nat): (r: Vm)
    ensures r.pc == vm.pc
  {
    if insn.BlobWrite? && Waits(insn, vm) && Pinned(vm).Some?
       && Reg(vm, insn.offset).n + |Reg(vm, insn.src).b| <= |Pinned(vm).value| then
      var data := Reg(vm, insn.src).b;
      vm.(rows := vm.rows[vm.cursor.rowid := Bytes(Spliced(Pinned(vm).value, Reg(vm, insn.offset).n, Front(data, done)))])
    else vm
  }

  function Front(data: seq<byte>, done: nat): (r: seq<byte>)
    ensures |r| <= |data|
  {
    if done <= |data| then data[..done] else data
  }

  /** Where the machine is at its `skip`-th waiting instruction from here, if it comes to one before it stops. */
  function NextWait(rowid: int, write: bool, vm: Vm, skip: nat): (w: Option<Vm>)
    requires vm.pc < 25
    ensures w.Some? ==> w.value.pc < 25
    decreases Rank(vm.pc)
  {
    RankDecreases(rowid, write, vm);
    var insn := InsnAt(rowid, write, vm.pc);
    var (next, e) := Exec(insn, vm);
    if Waits(insn, vm) && skip == 0 then Some(vm)
    else if e == Stepped then NextWait(rowid, write, next, if Waits(insn, vm) then skip - 1 else skip)
    else None
  }

  /** An early return at the `skip`-th waiting instruction: `Busy` or an I/O wait, with `done` bytes of a write stored. */
  datatype Interruption = Interruption(skip: nat, busy: bool, done: nat)

  /** One step of the machine: to its next stop, or to an early return. */
  function Stepping(rowid: int, write: bool, vm: Vm, fire: Option<Interruption>): (r: (Vm, Event))
    requires vm.pc < 25
    ensures r.0.pc < 25
  {
    RunStaysInside(rowid, write, vm);
    if fire.Some? && NextWait(rowid, write, vm, fire.value.skip).Some? then
      var w := NextWait(rowid, write, vm, fire.value.skip).value;
      (Partial(InsnAt(rowid, write, w.pc), w, fire.value.done), Stepped)
    else RunToStop(rowid, write, vm)
  }

  datatype Pumped = Stopped(e: Event) | CutShort

  /** Stepping again after every I/O wait, giving up at the first `Busy`. */
  function Pumping(rowid: int, write: bool, vm: Vm, plan: seq<Interruption>): (r: (Vm, Pumped))
    requires vm.pc < 25
    ensures r.0.pc < 25
    decreases |plan|
  {
    var (next, e) := Stepping(rowid, write, vm, if plan == [] then None else Some(plan[0]));
    if e != Stepped || plan == [] then (next, Stopped(e))
    else if plan[0].busy then (next, CutShort)
    else Pumping(rowid, write, next, plan[1..])
  }

  /** At a single waiting instruction, the plan ends in `Busy`. */
  predicate Cuts(plan: seq<Interruption>)
  {
    plan != [] && plan[0].skip == 0 && (plan[0].busy || Cuts(plan[1..]))
  }

  /** And this many bytes of a write have been stored by then. */
  function Stored(plan: seq<Interruption>): nat
  {
    if plan == [] || plan[0].skip > 0 then 0
    else if plan[0].busy then plan[0].done
    else var rest := Stored(plan[1..]); if rest < plan[0].done then plan[0].done else rest
  }

  predicate Patient(plan: seq<Interruption>) { forall i :: 0 <= i < |plan| ==> !plan[i].busy }

  lemma {:induction false} RunStaysInside(rowid: int, write: bool, vm: Vm)
    requires vm.pc < 25
    ensures RunToStop(rowid, write, vm).0.pc < 25 && RunToStop(rowid, write, vm).1 != Stepped
    decreases Rank(vm.pc)
  {
    hide Exec, InsnAt;
    RankDecreases(rowid, write, vm);
    var (next, e) := Exec(InsnAt(rowid, write, vm.pc), vm);
    if e == Stepped {
      RunStaysInside(rowid, write, next);
    }
  }

  // ---------------------------------------------------------------- early returns do not matter

  lemma StepTo(rowid: int, write: bool, vm: Vm, next: Vm)
    requires vm.pc < 25 && Exec(InsnAt(rowid, write, vm.pc), vm) == (next, Stepped)
    ensures next.pc < 25 && RunToStop(rowid, write, vm) == RunToStop(rowid, write, next)
  {
    RankDecreases(rowid, write, vm);
  }

  lemma StopAt(rowid: int, write: bool, vm: Vm)
    requires vm.pc < 25 && Exec(InsnAt(rowid, write, vm.pc), vm).1 != Stepped
    ensures RunToStop(rowid, write, vm) == Exec(InsnAt(rowid, write, vm.pc), vm)
  {
    RankDecreases(rowid, write, vm);
  }

  lemma {:induction false} WaitIsOnTheWay(rowid: int, write: bool, vm: Vm, skip: nat)
    requires vm.pc < 25 && NextWait(rowid, write, vm, skip).Some?
    ensures var w := NextWait(rowid, write, vm, skip).value;
            RunToStop(rowid, write, w) == RunToStop(rowid, write, vm) && Waits(InsnAt(rowid, write, w.pc), w)
    decreases Rank(vm.pc)
  {
    hide Exec, InsnAt, Waits;
    RankDecreases(rowid, write, vm);
    var insn := InsnAt(rowid, write, vm.pc);
    if !(Waits(insn, vm) && skip == 0) {
      var next := Exec(insn, vm).0;
      WaitIsOnTheWay(rowid, write, next, if Waits(insn, vm) then skip - 1 else skip);
    }
  }

  /** Storing some bytes and then all of them is storing all of them. */
  lemma SpliceOver(b: seq<byte>, off: nat, data: seq<byte>, done: nat)
    requires off + |data| <= |b|
    ensures Spliced(Spliced(b, off, Front(data, done)), off, data) == Spliced(b, off, data)
  {
  }

  /** The instruction that returned early does the same when it is executed again. */
  lemma PartialSame(insn: Insn, vm: Vm, done: nat)
    ensures Exec(insn, Partial(insn, vm, done)) == Exec(insn, vm)
    ensures Waits(insn, Partial(insn, vm, done)) == Waits(insn, vm)
  {
    hide Spliced, Front;
    var p := Partial(insn, vm, done);
    if insn.BlobWrite? && Waits(insn, vm) && Pinned(vm).Some?
       && Reg(vm, insn.offset).n + |Reg(vm, insn.src).b| <= |Pinned(vm).value| {
      var off, data := Reg(vm, insn.offset).n, Reg(vm, insn.src).b;
      SpliceOver(Pinned(vm).value, off, data, done);
      assert Pinned(p) == Some(Spliced(Pinned(vm).value, off, Front(data, done)));
      var all := Bytes(Spliced(Pinned(vm).value, off, data));
      assert p.rows[vm.cursor.rowid := all] == vm.rows[vm.cursor.rowid := all];
    }
  }

  lemma PartialRunsOn(rowid: int, write: bool, vm: Vm, done: nat)
    requires vm.pc < 25
    ensures var p := Partial(InsnAt(rowid, write, vm.pc), vm, done);
            && RunToStop(rowid, write, p) == RunToStop(rowid, write, vm)
            && forall k: nat | k > 0 :: NextWait(rowid, write, p, k) == NextWait(rowid, write, vm, k)
  {
    hide Exec, InsnAt, Waits, Partial;
    PartialSame(InsnAt(rowid, write, vm.pc), vm, done);
    RankDecreases(rowid, write, vm);
  }

  /** However often it waits, the machine stops where it would have stopped; `Busy` needs an impatient plan. */
  lemma {:induction false} WaitsDoNotMatter(rowid: int, write: bool, vm: Vm, plan: seq<Interruption>)
    requires vm.pc < 25
    ensures var (after, r) := Pumping(rowid, write, vm, plan);
            && (r.Stopped? ==> (after, r.e) == RunToStop(rowid, write, vm) && r.e != Stepped)
            && (Patient(plan) ==> r.Stopped?)
    decreases |plan|
  {
    hide RunToStop, NextWait, InsnAt, Partial, Waits;
    RunStaysInside(rowid, write, vm);
    if plan != [] && NextWait(rowid, write, vm, plan[0].skip).Some? {
      WaitIsOnTheWay(rowid, write, vm, plan[0].skip);
      var w := NextWait(rowid, write, vm, plan[0].skip).value;
      PartialRunsOn(rowid, write, w, plan[0].done);
      WaitsDoNotMatter(rowid, write, Partial(InsnAt(rowid, write, w.pc), w, plan[0].done), plan[1..]);
    }
  }

  // ---------------------------------------------------------------- runs of the loop

  /** `a` comes to `b` without waiting. */
  ghost predicate Quiet(rowid: int, write: bool, a: Vm, b: Vm)
  {
    && a.pc < 25 && b.pc < 25 && RunToStop(rowid, write, a) == RunToStop(rowid, write, b)
    && forall k: nat :: NextWait(rowid, write, a, k) == NextWait(rowid, write, b, k)
  }

  lemma QuietSelf(rowid: int, write: bool, a: Vm)
    requires a.pc < 25
    ensures Quiet(rowid, write, a, a)
  {
  }

  lemma QuietStep(rowid: int, write: bool, a: Vm, b: Vm, c: Vm)
    requires Quiet(rowid, write, a, b) && Exec(InsnAt(rowid, write, b.pc), b) == (c, Stepped) && !Waits(InsnAt(rowid, write, b.pc), b)
    ensures Quiet(rowid, write, a, c)
  {
    hide Exec, InsnAt, Waits;
    RankDecreases(rowid, write, b);
  }

  /** Paused at a result row (or freshly opened): the next instruction reads the operation parameter. */
  predicate AtTop(pc: nat) { pc == PC_LOOP || pc == PC_AFTER_READ || pc == PC_AFTER_WRITE }

  /** The machine with the dispatch registers loaded. */
  function Dispatched(vm: Vm, pc: nat): Vm
  {
    vm.(pc := pc,
        regs := vm.regs[R_OP := Lookup(vm.params, 1)][R_ZERO := VInt(0)][R_OFF := Lookup(vm.params, 2)][R_TWO := VInt(2)])
  }

  lemma ToLoop(rowid: int, write: bool, vm: Vm)
    requires AtTop(vm.pc)
    ensures Quiet(rowid, write, vm, vm.(pc := PC_LOOP))
  {
    hide Quiet, InsnAt;
    Layout(rowid, write);
    QuietSelf(rowid, write, vm);
    if vm.pc != PC_LOOP {
      QuietStep(rowid, write, vm, vm, vm.(pc := PC_LOOP));
    } else {
      assert vm.(pc := PC_LOOP) == vm;
    }
  }

  /** Both operations load the operation and offset parameters afresh before they branch. */
  lemma DispatchRun(rowid: int, write: bool, vm: Vm)
    requires AtTop(vm.pc)
    requires Lookup(vm.params, 1) == VInt(1) || Lookup(vm.params, 1) == VInt(2)
    ensures Quiet(rowid, write, vm, Dispatched(vm, if Lookup(vm.params, 1) == VInt(2) then PC_WRITE else PC_READ))
  {
    hide Quiet, InsnAt, Exec;
    Layout(rowid, write);
    ToLoop(rowid, write, vm);
    var v0 := vm.(pc := PC_LOOP);
    var v1 := Put(v0, R_OP, Lookup(vm.params, 1));
    var v2 := Put(v1, R_ZERO, VInt(0));
    var v3 := v2.(pc := 9);
    var v4 := Put(v3, R_OFF, Lookup(vm.params, 2));
    var v5 := Put(v4, R_TWO, VInt(2));
    var v6 := Dispatched(vm, if Lookup(vm.params, 1) == VInt(2) then PC_WRITE else PC_READ);
    ExecVariable(v0, 1, R_OP);
    QuietStep(rowid, write, vm, v0, v1);
    ExecInteger(v1, 0, R_ZERO);
    QuietStep(rowid, write, vm, v1, v2);
    ExecEq(v2, R_OP, R_ZERO, 20);
    QuietStep(rowid, write, vm, v2, v3);
    ExecVariable(v3, 2, R_OFF);
    QuietStep(rowid, write, vm, v3, v4);
    ExecInteger(v4, 2, R_TWO);
    QuietStep(rowid, write, vm, v4, v5);
    ExecEq(v5, R_OP, R_TWO, 16);
    QuietStep(rowid, write, vm, v5, v6);
  }

  lemma ExecVariable(vm: Vm, i: nat, d: nat)
    ensures Exec(Variable(i, d), vm) == (Put(vm, d, Lookup(vm.params, i)), Stepped)
  {
  }

  lemma ExecInteger(vm: Vm, n: int, d: nat)
    ensures Exec(Integer(n, d), vm) == (Put(vm, d, VInt(n)), Stepped)
  {
  }

  lemma ExecEq(vm: Vm, l: nat, r: nat, t: nat)
    ensures Exec(Eq(l, r, Offset(t)), vm)
         == (vm.(pc := if Reg(vm, l).VInt? && Reg(vm, l) == Reg(vm, r) then t else vm.pc + 1), Stepped)
  {
  }

  // Where the two operations touch pages, with everything they need in registers.
  const PC_BLOB_READ: nat := 13
  const PC_BLOB_WRITE: nat := 17

  /** A read of `amt` bytes at `off` is loaded and about to touch pages. */
  predicate ReadLoaded(vm: Vm, off: nat, amt: nat)
  {
    vm.pc == PC_BLOB_READ && Reg(vm, R_OFF) == VInt(off) && Reg(vm, R_AMT) == VInt(amt)
  }

  /** A write of `data` at `off` is loaded and about to touch pages. */
  predicate WriteLoaded(vm: Vm, off: nat, data: seq<byte>)
  {
    vm.pc == PC_BLOB_WRITE && Reg(vm, R_OFF) == VInt(off) && Reg(vm, R_SRC) == VBlob(data)
  }

  /** A bound read comes to its page access with exactly the bound offset and amount. */
  lemma ReadLoads(rowid: int, write: bool, vm: Vm, off: nat, amt: nat) returns (at: Vm)
    requires AtTop(vm.pc)
    requires Lookup(vm.params, 1) == VInt(1) && Lookup(vm.params, 2) == VInt(off) && Lookup(vm.params, 3) == VInt(amt)
    ensures Quiet(rowid, write, vm, at) && ReadLoaded(at, off, amt)
    ensures at == vm.(pc := at.pc, regs := at.regs)
  {
    hide Quiet, InsnAt, Exec;
    Layout(rowid, write);
    DispatchRun(rowid, write, vm);
    var v0 := Dispatched(vm, PC_READ);
    at := Put(v0, R_AMT, VInt(amt));
    ExecVariable(v0, 3, R_AMT);
    QuietStep(rowid, write, vm, v0, at);
  }

  /** A bound write comes to its page access with exactly the bound offset and bytes. */
  lemma WriteLoads(rowid: int, write: bool, vm: Vm, off: nat, data: seq<byte>) returns (at: Vm)
    requires AtTop(vm.pc)
    requires Lookup(vm.params, 1) == VInt(2) && Lookup(vm.params, 2) == VInt(off) && Lookup(vm.params, 4) == VBlob(data)
    ensures Quiet(rowid, write, vm, at) && WriteLoaded(at, off, data)
    ensures at == vm.(pc := at.pc, regs := at.regs)
  {
    hide Quiet, InsnAt, Exec;
    Layout(rowid, write);
    DispatchRun(rowid, write, vm);
    var v0 := Dispatched(vm, PC_WRITE);
    at := Put(v0, R_SRC, VBlob(data));
    ExecVariable(v0, 4, R_SRC);
    QuietStep(rowid, write, vm, v0, at);
  }

  /** Only the instruction at `vm` waits before the next stop, and it does so exactly when `waits`. */
  ghost predicate OneWait(rowid: int, write: bool, vm: Vm, waits: bool)
  {
    && vm.pc < 25 && Waits(InsnAt(rowid, write, vm.pc), vm) == waits
    && NextWait(rowid, write, vm, 0) == (if waits then Some(vm) else None)
    && forall k: nat | k > 0 :: NextWait(rowid, write, vm, k) == None
  }

  lemma RowNext(rowid: int, write: bool, vm: Vm, next: Vm)
    requires vm.pc < 25 && Exec(InsnAt(rowid, write, vm.pc), vm) == (next, Stepped)
    requires next.pc < 25 && InsnAt(rowid, write, next.pc).ResultRow?
    ensures OneWait(rowid, write, vm, Waits(InsnAt(rowid, write, vm.pc), vm))
    ensures RunToStop(rowid, write, vm) == (next.(pc := next.pc + 1), Row(Reg(next, InsnAt(rowid, write, next.pc).reg)))
  {
    hide InsnAt, Waits;
    StepTo(rowid, write, vm, next);
    StopAt(rowid, write, next);
    assert !Waits(InsnAt(rowid, write, next.pc), next) by { RowsDoNotWait(InsnAt(rowid, write, next.pc), next); }
    forall k: nat ensures NextWait(rowid, write, vm, k) == if k == 0 && Waits(InsnAt(rowid, write, vm.pc), vm) then Some(vm) else None {
      RankDecreases(rowid, write, vm);
      RankDecreases(rowid, write, next);
      assert NextWait(rowid, write, next, k) == None;
      assert k > 0 ==> NextWait(rowid, write, next, k - 1) == None;
    }
  }

  lemma RowsDoNotWait(insn: Insn, vm: Vm)
    requires insn.ResultRow?
    ensures !Waits(insn, vm)
  {
  }

  /** A loaded read gives the bytes it was loaded with, or null once expired, and changes no row. */
  lemma ReadRun(rowid: int, write: bool, vm: Vm, off: nat, amt: nat)
    requires ReadLoaded(vm, off, amt) && vm.cursor.On?
    requires vm.cursor.expired || (Pinned(vm).Some? && off + amt <= |Pinned(vm).value|)
    ensures var (after, e) := RunToStop(rowid, write, vm);
            && after == vm.(pc := PC_AFTER_READ, regs := after.regs)
            && e == Row(if vm.cursor.expired then VNull else VBlob(Pinned(vm).value[off..off + amt]))
    ensures OneWait(rowid, write, vm, !vm.cursor.expired)
  {
    hide RunToStop, InsnAt, OneWait;
    Layout(rowid, write);
    var next := Put(vm, R_DATA, if vm.cursor.expired then VNull else VBlob(Pinned(vm).value[off..off + amt]));
    RowNext(rowid, write, vm, next);
  }

  /** A loaded write stores its bytes and acknowledges, or changes nothing and answers null once expired. */
  lemma WriteRun(rowid: int, write: bool, vm: Vm, off: nat, data: seq<byte>)
    requires WriteLoaded(vm, off, data) && vm.cursor.On?
    requires vm.cursor.expired || (Pinned(vm).Some? && off + |data| <= |Pinned(vm).value|)
    ensures var (after, e) := RunToStop(rowid, write, vm);
            if vm.cursor.expired then
              after == vm.(pc := PC_AFTER_WRITE, regs := after.regs) && e == Row(VNull)
            else
              && after == vm.(pc := PC_AFTER_WRITE, regs := after.regs,
                              rows := vm.rows[vm.cursor.rowid := Bytes(Spliced(Pinned(vm).value, off, data))])
              && e == Row(VInt(1))
    ensures OneWait(rowid, write, vm, !vm.cursor.expired)
  {
    hide RunToStop, InsnAt, OneWait;
    Layout(rowid, write);
    var next := if vm.cursor.expired then Put(vm, R_ACK, VNull)
                else Put(vm.(rows := vm.rows[vm.cursor.rowid := Bytes(Spliced(Pinned(vm).value, off, data))]), R_ACK, VInt(1));
    RowNext(rowid, write, vm, next);
  }

  /** Operation zero leaves the loop and halts, committing what the rows hold. */
  lemma CloseRun(rowid: int, write: bool, vm: Vm)
    requires AtTop(vm.pc) && Lookup(vm.params, 1) == VInt(0)
    ensures var (after, e) := RunToStop(rowid, write, vm);
            after == vm.(pc := PC_END, regs := after.regs, committed := Some(vm.rows)) && e == Done
  {
    hide RunToStop, InsnAt, NextWait;
    Layout(rowid, write);
    ToLoop(rowid, write, vm);
    var v0 := vm.(pc := PC_LOOP);
    var v1 := Put(v0, R_OP, VInt(0));
    var v2 := Put(v1, R_ZERO, VInt(0));
    var v3 := v2.(pc := PC_DONE);
    var v4 := v3.(pc := PC_END);
    StepTo(rowid, write, v0, v1);
    StepTo(rowid, write, v1, v2);
    StepTo(rowid, write, v2, v3);
    StepTo(rowid, write, v3, v4);
    StopAt(rowid, write, v4);
  }

  /**
   One operation, pumped: the plan decides whether it is cut short at its page access, leaving the
   operation loaded and the first bytes of a write stored, or runs to its result row.
   */
  lemma {:induction false} PumpOne(rowid: int, write: bool, vm: Vm, at: Vm, waits: bool, plan: seq<Interruption>)
    requires Quiet(rowid, write, vm, at) && OneWait(rowid, write, at, waits)
    ensures var (after, r) := Pumping(rowid, write, vm, plan);
            if waits && Cuts(plan) then after == Partial(InsnAt(rowid, write, at.pc), at, Stored(plan)) && r == CutShort
            else r.Stopped? && (after, r.e) == RunToStop(rowid, write, at)
    decreases |plan|
  {
    hide RunToStop, NextWait, InsnAt, Partial, Waits;
    RunStaysInside(rowid, write, vm);
    if plan != [] && waits && plan[0].skip == 0 {
      var insn := InsnAt(rowid, write, at.pc);
      var p := Partial(insn, at, plan[0].done);
      if !plan[0].busy {
        PartialWaits(rowid, write, at, plan[0].done);
        QuietSelf(rowid, write, p);
        PumpOne(rowid, write, p, p, true, plan[1..]);
        PartialTwice(insn, at, plan[0].done, Stored(plan[1..]));
        PartialRunsOn(rowid, write, at, plan[0].done);
      }
    }
  }

  lemma PartialWaits(rowid: int, write: bool, vm: Vm, done: nat)
    requires OneWait(rowid, write, vm, true)
    ensures OneWait(rowid, write, Partial(InsnAt(rowid, write, vm.pc), vm, done), true)
  {
    hide Exec, InsnAt, Waits, Partial;
    PartialSame(InsnAt(rowid, write, vm.pc), vm, done);
    PartialRunsOn(rowid, write, vm, done);
    RankDecreases(rowid, write, vm);
  }

  lemma FrontTwice(b: seq<byte>, off: nat, data: seq<byte>, m: nat, n: nat)
    requires off + |data| <= |b|
    ensures Spliced(Spliced(b, off, Front(data, m)), off, Front(data, n)) == Spliced(b, off, Front(data, if m < n then n else m))
  {
  }

  lemma PartialTwice(insn: Insn, vm: Vm, m: nat, n: nat)
    ensures Partial(insn, Partial(insn, vm, m), n) == Partial(insn, vm, if n < m then m else n)
  {
    hide Spliced, Front;
    PartialSame(insn, vm, m);
    var p := Partial(insn, vm, m);
    if insn.BlobWrite? && Waits(insn, vm) && Pinned(vm).Some?
       && Reg(vm, insn.offset).n + |Reg(vm, insn.src).b| <= |Pinned(vm).value| {
      var off, data := Reg(vm, insn.offset).n, Reg(vm, insn.src).b;
      FrontTwice(Pinned(vm).value, off, data, m, n);
      assert Pinned(p) == Some(Spliced(Pinned(vm).value, off, Front(data, m)));
      var all := Bytes(Spliced(Pinned(vm).value, off, Front(data, if n < m then m else n)));
      assert p.rows[vm.cursor.rowid := all] == vm.rows[vm.cursor.rowid := all];
    }
  }

  /** Opening runs to the length of the value, or fails when there is no such row or no addressable value. */
  lemma OpenRun(rowid: int, write: bool, rows: Rows, params: map<nat, Val>)
    ensures var start := Vm(0, map[], params, NoCursor, rows, None);
            var (after, e) := RunToStop(rowid, write, start);
            if rowid in rows && rows[rowid].Bytes? then
              && after == start.(pc := PC_LOOP, regs := after.regs, cursor := On(rowid, false))
              && e == Row(VInt(|rows[rowid].b|))
            else e == Failed && after.rows == rows
  {
    hide RunToStop, InsnAt;
    Layout(rowid, write);
    var v0 := Vm(0, map[], params, NoCursor, rows, None);
    var v1 := v0.(pc := 23);
    var v2 := v1.(pc := 24);
    var v3 := v2.(pc := 1);
    var v4 := v3.(pc := 2, cursor := Opened);
    var v5 := Put(v4, R_ROWID, VInt(rowid));
    StepTo(rowid, write, v0, v1);
    StepTo(rowid, write, v1, v2);
    StepTo(rowid, write, v2, v3);
    StepTo(rowid, write, v3, v4);
    StepTo(rowid, write, v4, v5);
    if rowid in rows {
      var v6 := v5.(pc := 4, cursor := On(rowid, false));
      StepTo(rowid, write, v5, v6);
      if rows[rowid].Bytes? {
        var v7 := Put(v6, R_READY, VInt(|rows[rowid].b|));
        StepTo(rowid, write, v6, v7);
        StopAt(rowid, write, v7);
      } else {
        StopAt(rowid, write, v6);
      }
    } else {
      var v6 := v5.(pc := PC_NOT_FOUND);
      StepTo(rowid, write, v5, v6);
      StopAt(rowid, write, v6);
    }
  }
}
