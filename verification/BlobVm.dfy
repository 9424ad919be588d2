/**
 A bytecode machine with only the opcodes an incremental-blob handle needs, and the
 paused program that such a handle drives.
 */
module BlobVm {
  import opened Common

  datatype Val = VNull | VInt(n: int) | VBlob(b: seq<byte>)

  datatype Target = Label(id: nat) | Offset(pc: nat)

  datatype Insn =
    | Init(target: Target)
    | Transaction(write: bool)
    | Open(write: bool)
    | Integer(value: int, dest: nat)
    | SeekRowid(src: nat, target: Target)
    | BlobLen(dest: nat)
    | ResultRow(reg: nat)
    | Variable(index: nat, dest: nat)
    | Eq(lhs: nat, rhs: nat, target: Target)
    | BlobRead(offset: nat, amount: nat, dest: nat)
    | BlobWrite(offset: nat, src: nat, dest: nat)
    | Goto(target: Target)
    | Halt(failed: bool)

  // ---------------------------------------------------------------- program builder

  class ProgramBuilder {
    var insns: seq<Insn>
    var labels: seq<Option<nat>>
    var nextRegister: nat

    constructor ()
      ensures insns == [] && labels == [] && nextRegister == 1
    {
      insns, labels, nextRegister := [], [], 1;
    }

    method Emit(insn: Insn)
      modifies this`insns
      ensures insns == old(insns) + [insn]
    {
      insns := insns + [insn];
    }

    method AllocRegister() returns (r: nat)
      modifies this`nextRegister
      ensures r == old(nextRegister) && nextRegister == r + 1
    {
      r := nextRegister;
      nextRegister := r + 1;
    }

    method AllocateLabel() returns (l: Target)
      modifies this`labels
      ensures l == Label(|old(labels)|) && labels == old(labels) + [None]
    {
      l := Label(|labels|);
      labels := labels + [None];
    }

    method PreassignToNext(l: Target)
      requires l.Label? && l.id < |labels|
      modifies this`labels
      ensures labels == old(labels)[l.id := Some(|insns|)]
    {
      labels := labels[l.id := Some(|insns|)];
    }

    /** Replace every label by the offset it was anchored to. */
    method Build() returns (r: Option<seq<Insn>>)
      ensures r.Some? <==> forall i :: 0 <= i < |insns| ==> Resolvable(insns[i], labels)
      ensures r.Some? ==> |r.value| == |insns| && forall i :: 0 <= i < |insns| ==> r.value[i] == Resolved(insns[i], labels)
    {
      var out: seq<Insn> := [];
      for i := 0 to |insns|
        invariant |out| == i
        invariant forall k :: 0 <= k < i ==> Resolvable(insns[k], labels) && out[k] == Resolved(insns[k], labels)
      {
        if !Resolvable(insns[i], labels) {
          return None;
        }
        out := out + [Resolved(insns[i], labels)];
      }
      r := Some(out);
    }
  }

  predicate Jumps(insn: Insn) { insn.Init? || insn.SeekRowid? || insn.Eq? || insn.Goto? }

  predicate Resolvable(insn: Insn, labels: seq<Option<nat>>)
  {
    Jumps(insn) && insn.target.Label? ==> insn.target.id < |labels| && labels[insn.target.id].Some?
  }

  function Resolved(insn: Insn, labels: seq<Option<nat>>): Insn
    requires Resolvable(insn, labels)
  {
    if Jumps(insn) && insn.target.Label? then
      var t := Offset(labels[insn.target.id].value);
      (match insn
       case Init(_) => Init(t)
       case SeekRowid(src, _) => SeekRowid(src, t)
       case Eq(l, r, _) => Eq(l, r, t)
       case Goto(_) => Goto(t))
    else insn
  }

  // ---------------------------------------------------------------- the program

  // Registers, in the order the builder hands them out.
  const R_ROWID: nat := 1
  const R_READY: nat := 2
  const R_OP: nat := 3
  const R_ZERO: nat := 4
  const R_OFF: nat := 5
  const R_TWO: nat := 6
  const R_AMT: nat := 7
  const R_DATA: nat := 8
  const R_SRC: nat := 9
  const R_ACK: nat := 10

  // Where the program can be paused at a result row, and where an operation starts.
  const PC_LOOP: nat := 6
  const PC_READ: nat := 12
  const PC_AFTER_READ: nat := 15
  const PC_WRITE: nat := 16
  const PC_AFTER_WRITE: nat := 19
  const PC_DONE: nat := 20
  const PC_NOT_FOUND: nat := 21
  const PC_END: nat := 22
  const PC_TRANSACTION: nat := 23

  function OpenPart(rowid: int, write: bool, init: Target, notFound: Target): (p: seq<Insn>)
    ensures |p| == 6
  {
    [ Init(init), Open(write), Integer(rowid, R_ROWID), SeekRowid(R_ROWID, notFound), BlobLen(R_READY), ResultRow(R_READY) ]
  }

  function DispatchPart(write: Target, done: Target): (p: seq<Insn>)
    ensures |p| == 6
  {
    [ Variable(1, R_OP), Integer(0, R_ZERO), Eq(R_OP, R_ZERO, done),
      Variable(2, R_OFF), Integer(2, R_TWO), Eq(R_OP, R_TWO, write) ]
  }

  function ReadPart(loop: Target): (p: seq<Insn>)
    ensures |p| == 4
  {
    [ Variable(3, R_AMT), BlobRead(R_OFF, R_AMT, R_DATA), ResultRow(R_DATA), Goto(loop) ]
  }

  function WritePart(loop: Target): (p: seq<Insn>)
    ensures |p| == 4
  {
    [ Variable(4, R_SRC), BlobWrite(R_OFF, R_SRC, R_ACK), ResultRow(R_ACK), Goto(loop) ]
  }

  function TailPart(write: bool, end: Target): (p: seq<Insn>)
    ensures |p| == 5
  {
    [ Goto(end), Halt(true), Halt(false), Transaction(write), Goto(Offset(1)) ]
  }

  /** The program, with its labels resolved. */
  function BlobProgram(rowid: int, write: bool): (p: seq<Insn>)
    ensures |p| == 25
  {
    OpenPart(rowid, write, Offset(PC_TRANSACTION), Offset(PC_NOT_FOUND))
    + DispatchPart(Offset(PC_WRITE), Offset(PC_DONE))
    + ReadPart(Offset(PC_LOOP))
    + WritePart(Offset(PC_LOOP))
    + TailPart(write, Offset(PC_END))
  }

  method EmitOpen(b: ProgramBuilder, rowid: int, write: bool, init: Target) returns (notFound: Target)
    requires b.insns == [] && |b.labels| == 1 && b.nextRegister == 1
    modifies b
    ensures notFound == Label(1) && b.labels == old(b.labels) + [None] && b.nextRegister == 3
    ensures b.insns == OpenPart(rowid, write, init, notFound)
  {
    b.Emit(Init(init));
    b.Emit(Open(write));
    var rRowid := b.AllocRegister();
    b.Emit(Integer(rowid, rRowid));
    notFound := b.AllocateLabel();
    b.Emit(SeekRowid(rRowid, notFound));
    var rReady := b.AllocRegister();
    b.Emit(BlobLen(rReady));
    b.Emit(ResultRow(rReady));
  }

  method EmitDispatch(b: ProgramBuilder, write: Target, done: Target) returns (rOff: nat)
    requires b.nextRegister == 3
    modifies b`insns, b`nextRegister
    ensures rOff == R_OFF && b.nextRegister == 7
    ensures b.insns == old(b.insns) + DispatchPart(write, done)
  {
    var rOp := b.AllocRegister();
    b.Emit(Variable(1, rOp));
    var rZero := b.AllocRegister();
    b.Emit(Integer(0, rZero));
    b.Emit(Eq(rOp, rZero, done));
    rOff := b.AllocRegister();
    b.Emit(Variable(2, rOff));
    var rTwo := b.AllocRegister();
    b.Emit(Integer(2, rTwo));
    b.Emit(Eq(rOp, rTwo, write));
  }

  method EmitRead(b: ProgramBuilder, rOff: nat, loop: Target)
    requires b.nextRegister == 7 && rOff == R_OFF
    modifies b`insns, b`nextRegister
    ensures b.nextRegister == 9
    ensures b.insns == old(b.insns) + ReadPart(loop)
  {
    var rAmt := b.AllocRegister();
    b.Emit(Variable(3, rAmt));
    var rData := b.AllocRegister();
    b.Emit(BlobRead(rOff, rAmt, rData));
    b.Emit(ResultRow(rData));
    b.Emit(Goto(loop));
  }

  method EmitWrite(b: ProgramBuilder, rOff: nat, loop: Target)
    requires b.nextRegister == 9 && rOff == R_OFF
    modifies b`insns, b`nextRegister
    ensures b.insns == old(b.insns) + WritePart(loop)
  {
    var rSrc := b.AllocRegister();
    b.Emit(Variable(4, rSrc));
    var rAck := b.AllocRegister();
    b.Emit(BlobWrite(rOff, rSrc, rAck));
    b.Emit(ResultRow(rAck));
    b.Emit(Goto(loop));
  }

  method EmitTail(b: ProgramBuilder, write: bool, init: Target, notFound: Target, done: Target, end: Target)
    requires init == Label(0) && notFound == Label(1) && done == Label(4) && end == Label(5) && |b.labels| == 6
    modifies b`insns, b`labels
    ensures b.insns == old(b.insns) + TailPart(write, end)
    ensures var n := |old(b.insns)|;
            b.labels == old(b.labels)[4 := Some(n)][1 := Some(n + 1)][5 := Some(n + 2)][0 := Some(n + 3)]
  {
    b.PreassignToNext(done);
    b.Emit(Goto(end));
    b.PreassignToNext(notFound);
    b.Emit(Halt(true));
    b.PreassignToNext(end);
    b.Emit(Halt(false));
    b.PreassignToNext(init);
    b.Emit(Transaction(write));
    b.Emit(Goto(Offset(1)));
  }

  /** The builder calls of the source produce the program above: every label lands where it is meant to. */
  method BuildBlobProgram(rowid: int, write: bool) returns (r: Option<seq<Insn>>)
    ensures r == Some(BlobProgram(rowid, write))
  {
    hide OpenPart, DispatchPart, ReadPart, WritePart, TailPart, Resolvable, Resolved;
    var b := new ProgramBuilder();
    var init := b.AllocateLabel();
    var notFound := EmitOpen(b, rowid, write, init);
    var loop := b.AllocateLabel();
    var lWrite := b.AllocateLabel();
    var done := b.AllocateLabel();
    var end := b.AllocateLabel();
    b.PreassignToNext(loop);
    var rOff := EmitDispatch(b, lWrite, done);
    EmitRead(b, rOff, loop);
    b.PreassignToNext(lWrite);
    EmitWrite(b, rOff, loop);
    EmitTail(b, write, init, notFound, done, end);
    assert b.labels == FinalLabels();
    assert b.insns == OpenPart(rowid, write, init, notFound) + DispatchPart(lWrite, done)
                      + ReadPart(loop) + WritePart(loop) + TailPart(write, end);
    PartsResolve(rowid, write);
    r := b.Build();
    ghost var p := BlobProgram(rowid, write);
    assert forall i :: 0 <= i < 25 ==> Resolvable(b.insns[i], b.labels) && Resolved(b.insns[i], b.labels) == p[i];
    assert r.value == p;
  }

  ghost function FinalLabels(): seq<Option<nat>>
  {
    [Some(PC_TRANSACTION), Some(PC_NOT_FOUND), Some(PC_LOOP), Some(PC_WRITE), Some(PC_DONE), Some(PC_END)]
  }

  ghost predicate ResolvesTo(p: seq<Insn>, q: seq<Insn>)
  {
    |p| == |q| && forall i :: 0 <= i < |p| ==> Resolvable(p[i], FinalLabels()) && Resolved(p[i], FinalLabels()) == q[i]
  }

  lemma PartsResolve(rowid: int, write: bool)
    ensures ResolvesTo(OpenPart(rowid, write, Label(0), Label(1)) + DispatchPart(Label(3), Label(4))
                       + ReadPart(Label(2)) + WritePart(Label(2)) + TailPart(write, Label(5)),
                       BlobProgram(rowid, write))
  {
    assert ResolvesTo(OpenPart(rowid, write, Label(0), Label(1)), OpenPart(rowid, write, Offset(PC_TRANSACTION), Offset(PC_NOT_FOUND)));
    assert ResolvesTo(DispatchPart(Label(3), Label(4)), DispatchPart(Offset(PC_WRITE), Offset(PC_DONE)));
    assert ResolvesTo(ReadPart(Label(2)), ReadPart(Offset(PC_LOOP)));
    assert ResolvesTo(WritePart(Label(2)), WritePart(Offset(PC_LOOP)));
    assert ResolvesTo(TailPart(write, Label(5)), TailPart(write, Offset(PC_END)));
  }
}
