/**
 Named savepoints over a connection's schemas, by value: what SAVEPOINT, RELEASE and ROLLBACK TO
 mean, and what they guarantee over whole runs.
 */
module Savepoints {
  import opened Common

  /** Object name to definition. */
  type Schema = map<string, string>

  datatype Db = MainDb | TempDb | Attached(id: nat)

  /** The connection's schemas: `temp` is absent until initialised, `staged` holds uncommitted DDL on attached databases. */
  datatype Schemas = Schemas(main: Schema, temp: Option<Schema>, staged: map<nat, Schema>)

  datatype Saved = Saved(name: string, starts: bool, fk: int, schemas: Schemas)

  /** `shared` is what each attached database has published, and `fk` the deferred foreign-key violations. */
  datatype State = State(cur: Schemas, saved: seq<Saved>, autoCommit: bool, fk: int, shared: map<nat, Schema>)

  datatype Step =
    | Ddl(db: Db, f: Schema -> Schema)
    | InitTemp(empty: Schema)
    | ResetTemp
    | Begin(name: string)
    | Release(name: string, fkEnabled: bool)
    | RollbackTo(name: string, empty: Schema)
    | BeginTransaction
    | CommitTransaction(fkEnabled: bool)
    | RollbackTransaction(main: Schema, temp: Option<Schema>, fkEnabled: bool)
    | Violate(fk: int)
    | Publish(id: nat, schema: Schema)

  datatype Outcome = Done | NoSuchSavepoint | ForeignKeyViolation | NoTransaction | NestedTransaction

  function Names(saved: seq<Saved>): (names: seq<string>)
    ensures |names| == |saved| && forall i :: 0 <= i < |saved| ==> names[i] == saved[i].name
  {
    seq(|saved|, i requires 0 <= i < |saved| => saved[i].name)
  }

  /** The last position of `name`. */
  function Innermost(names: seq<string>, name: string): (r: Option<nat>)
    ensures r.Some? ==> r.value < |names| && names[r.value] == name && forall j :: r.value < j < |names| ==> names[j] != name
    ensures r.None? ==> name !in names
  {
    if names == [] then None
    else if names[|names| - 1] == name then Some(|names| - 1)
    else Innermost(names[..|names| - 1], name)
  }

  /** DDL reaches an initialised temp database, and an attached database that is attached. */
  predicate Enabled(s: State, step: Step)
  {
    match step
    case Ddl(TempDb, _) => s.cur.temp.Some?
    case Ddl(Attached(id), _) => id in s.cur.staged || id in s.shared
    case ResetTemp => s.autoCommit
    case RollbackTransaction(_, temp, _) => s.cur.temp.Some? <==> temp.Some?
    case InitTemp(_) => s.cur.temp.None?
    case _ => true
  }

  function AfterDdl(s: State, db: Db, f: Schema -> Schema): Schemas
    requires Enabled(s, Ddl(db, f))
  {
    match db
    case MainDb => s.cur.(main := f(s.cur.main))
    case TempDb => s.cur.(temp := Some(f(s.cur.temp.value)))
    case Attached(id) =>
      s.cur.(staged := s.cur.staged[id := f(if id in s.cur.staged then s.cur.staged[id] else s.shared[id])])
  }

  /** ROLLBACK TO leaves an uninitialised temp database alone, and empties one initialised since the savepoint. */
  function Restored(cur: Schemas, snapshot: Schemas, empty: Schema): Schemas
  {
    snapshot.(temp := if cur.temp.None? then None else if snapshot.temp.None? then Some(empty) else snapshot.temp)
  }

  /** The transaction ends: the stack is dropped and the connection is back in auto-commit with nothing staged. */
  function Ended(s: State, fkEnabled: bool): State
  {
    s.(saved := [], autoCommit := true, fk := if fkEnabled then 0 else s.fk, cur := s.cur.(staged := map[]))
  }

  /** Staged schemas take the place of the published ones. */
  function Published(shared: map<nat, Schema>, staged: map<nat, Schema>): map<nat, Schema>
  {
    map id | id in shared :: if id in staged then staged[id] else shared[id]
  }

  function Committed(s: State, fkEnabled: bool): (State, Outcome)
  {
    if fkEnabled && s.fk > 0 then (s, ForeignKeyViolation)
    else (Ended(s, fkEnabled).(shared := Published(s.shared, s.cur.staged)), Done)
  }

  function Apply(s: State, step: Step): (r: (State, Outcome))
    requires Enabled(s, step)
  {
    match step
    case Ddl(db, f) => (s.(cur := AfterDdl(s, db, f)), Done)
    case InitTemp(empty) => (s.(cur := s.cur.(temp := Some(empty))), Done)
    case ResetTemp => (s.(cur := s.cur.(temp := None)), Done)
    case Begin(name) => (s.(saved := s.saved + [Saved(name, s.autoCommit, s.fk, s.cur)], autoCommit := false), Done)
    case Release(name, fkEnabled) =>
      (match Innermost(Names(s.saved), name)
       case None => (s, NoSuchSavepoint)
       case Some(i) =>
         if s.saved[i].starts && i == 0 then Committed(s, fkEnabled)
         else (s.(saved := s.saved[..i]), Done))
    case RollbackTo(name, empty) =>
      (match Innermost(Names(s.saved), name)
       case None => (s, NoSuchSavepoint)
       case Some(i) =>
         (s.(saved := s.saved[..i + 1], fk := s.saved[i].fk, cur := Restored(s.cur, s.saved[i].schemas, empty)), Done))
    case BeginTransaction => if s.autoCommit then (s.(autoCommit := false), Done) else (s, NestedTransaction)
    case CommitTransaction(fkEnabled) => if s.autoCommit then (s, NoTransaction) else Committed(s, fkEnabled)
    case RollbackTransaction(main, temp, fkEnabled) =>
      if s.autoCommit then (s, NoTransaction) else (Ended(s, fkEnabled).(cur := Schemas(main, temp, map[])), Done)
    case Violate(fk) => (s.(fk := fk), Done)
    case Publish(id, schema) => (s.(shared := s.shared[id := schema]), Done)
  }

  // ---------------------------------------------------------------- runs

  /** `states[i]` is the state before `steps[i]`; a run starts with no savepoint open. */
  ghost predicate Run(states: seq<State>, steps: seq<Step>)
  {
    && |states| == |steps| + 1
    && states[0].saved == []
    && forall i :: 0 <= i < |steps| ==> Enabled(states[i], steps[i]) && states[i + 1] == Apply(states[i], steps[i]).0
  }

  /** An open savepoint means an open transaction, and a temp database once snapshotted stays initialised. */
  predicate Inv(s: State)
  {
    && (s.saved != [] ==> !s.autoCommit)
    && forall i :: 0 <= i < |s.saved| ==> s.saved[i].schemas.temp.Some? ==> s.cur.temp.Some?
  }

  lemma StepKeepsInv(s: State, step: Step)
    requires Inv(s) && Enabled(s, step)
    ensures Inv(Apply(s, step).0)
  {
    hide Innermost;
  }

  lemma {:induction false} RunKeepsInv(states: seq<State>, steps: seq<Step>, n: nat)
    requires Run(states, steps) && n < |states|
    ensures Inv(states[n])
  {
    if n > 0 {
      RunKeepsInv(states, steps, n - 1);
      StepKeepsInv(states[n - 1], steps[n - 1]);
    }
  }

  /** The savepoint begun at `t` is still open at `n`: the stack never came back down to where it was. */
  ghost predicate OpenSince(states: seq<State>, steps: seq<Step>, t: nat, n: nat)
  {
    && t < n < |states| && |states| == |steps| + 1
    && steps[t].Begin?
    && forall i :: t < i <= n ==> |states[i].saved| > |states[t].saved|
  }

  /** A step only pushes onto the stack or cuts it. */
  lemma PushOrCut(s: State, step: Step)
    requires Enabled(s, step)
    ensures var s' := Apply(s, step).0;
            || s'.saved <= s.saved
            || (step.Begin? && s'.saved == s.saved + [Saved(step.name, s.autoCommit, s.fk, s.cur)])
  {
    hide Innermost;
  }

  /** While a savepoint is open the stack up to and including its frame does not change. */
  lemma {:induction false} FrameStays(states: seq<State>, steps: seq<Step>, t: nat, n: nat)
    requires Run(states, steps) && OpenSince(states, steps, t, n)
    ensures states[t + 1].saved <= states[n].saved
    ensures states[t + 1].saved == states[t].saved + [Saved(steps[t].name, states[t].autoCommit, states[t].fk, states[t].cur)]
    decreases n
  {
    hide Apply;
    if n == t + 1 {
      PushOrCut(states[t], steps[t]);
    } else {
      FrameStays(states, steps, t, n - 1);
      PushOrCut(states[n - 1], steps[n - 1]);
      assert states[n].saved[..|states[t].saved| + 1] == states[n - 1].saved[..|states[t].saved| + 1];
    }
  }

  /** Every frame on the stack belongs to exactly one savepoint that is still open. */
  lemma {:induction false} FrameOrigin(states: seq<State>, steps: seq<Step>, n: nat, d: nat) returns (t: nat)
    requires Run(states, steps) && n < |states| && d < |states[n].saved|
    ensures OpenSince(states, steps, t, n) && |states[t].saved| == d
    ensures states[n].saved[d] == Saved(steps[t].name, states[t].autoCommit, states[t].fk, states[t].cur)
    ensures forall u: nat :: OpenSince(states, steps, u, n) && |states[u].saved| == d ==> u == t
    decreases n
  {
    hide Apply;
    PushOrCut(states[n - 1], steps[n - 1]);
    if d < |states[n - 1].saved| {
      t := FrameOrigin(states, steps, n - 1, d);
    } else {
      t := n - 1;
    }
  }

  /** `t` is the innermost savepoint called `name` that is open at `n`. */
  ghost predicate InnermostOpen(states: seq<State>, steps: seq<Step>, t: nat, n: nat, name: string)
  {
    && OpenSince(states, steps, t, n) && steps[t].name == name
    && forall u: nat :: OpenSince(states, steps, u, n) && steps[u].name == name ==> u <= t
  }

  lemma DeeperIsLater(states: seq<State>, steps: seq<Step>, t: nat, u: nat, n: nat)
    requires OpenSince(states, steps, t, n) && OpenSince(states, steps, u, n) && t < u
    ensures |states[t].saved| < |states[u].saved|
  {
  }

  /** The name search finds the innermost open savepoint, and fails only when none of that name is open. */
  lemma SearchFinds(states: seq<State>, steps: seq<Step>, n: nat, name: string) returns (t: nat)
    requires Run(states, steps) && n < |states|
    ensures var found := Innermost(Names(states[n].saved), name);
            if found.Some? then InnermostOpen(states, steps, t, n, name) && |states[t].saved| == found.value
            else forall u: nat :: OpenSince(states, steps, u, n) ==> steps[u].name != name
  {
    hide Innermost, Run;
    var names := Names(states[n].saved);
    var found := Innermost(names, name);
    forall u: nat | OpenSince(states, steps, u, n) && steps[u].name == name
      ensures found.Some? && |states[u].saved| <= found.value
    {
      FrameStays(states, steps, u, n);
      assert names[|states[u].saved|] == name;
    }
    t := 0;
    if found.Some? {
      t := FrameOrigin(states, steps, n, found.value);
      forall u: nat | OpenSince(states, steps, u, n) && steps[u].name == name
        ensures u <= t
      {
        if t < u {
          DeeperIsLater(states, steps, t, u, n);
        }
      }
    }
  }

  /** The schemas a statement sees: an uninitialised temp database reads as an empty one. */
  function Visible(schemas: Schemas, empty: Schema): Schemas
  {
    schemas.(temp := Some(if schemas.temp.Some? then schemas.temp.value else empty))
  }

  /** What the connection sees of an attached database. */
  function AttachedView(s: State, id: nat): Option<Schema>
  {
    if id !in s.shared then None else if id in s.cur.staged then Some(s.cur.staged[id]) else Some(s.shared[id])
  }

  /**
   ROLLBACK TO succeeds exactly when a savepoint of that name is open, and then puts schemas, stack
   and violation count back to what they were right after the innermost one began.
   */
  lemma RollbackRestores(states: seq<State>, steps: seq<Step>, n: nat) returns (t: nat)
    requires Run(states, steps) && n < |steps| && steps[n].RollbackTo?
    ensures var (after, outcome) := Apply(states[n], steps[n]);
            if outcome == Done then
              && InnermostOpen(states, steps, t, n, steps[n].name)
              && Visible(after.cur, steps[n].empty) == Visible(states[t].cur, steps[n].empty)
              && after.saved == states[t + 1].saved
              && after.fk == states[t].fk
              && !after.autoCommit
            else
              && outcome == NoSuchSavepoint && after == states[n]
              && forall u: nat :: OpenSince(states, steps, u, n) ==> steps[u].name != steps[n].name
  {
    hide Innermost;
    t := SearchFinds(states, steps, n, steps[n].name);
    RunKeepsInv(states, steps, n);
    var found := Innermost(Names(states[n].saved), steps[n].name);
    if found.Some? {
      FrameStays(states, steps, t, n);
    }
  }

  /**
   RELEASE drops the innermost savepoint of that name and those inside it and changes no schema the
   connection sees; it commits exactly when that savepoint is the outermost and opened the transaction.
   */
  lemma ReleaseDrops(states: seq<State>, steps: seq<Step>, n: nat) returns (t: nat)
    requires Run(states, steps) && n < |steps| && steps[n].Release?
    ensures var (after, outcome) := Apply(states[n], steps[n]);
            && after.cur.main == states[n].cur.main && after.cur.temp == states[n].cur.temp
            && (forall id :: AttachedView(after, id) == AttachedView(states[n], id))
            && match outcome
               case Done =>
                 && InnermostOpen(states, steps, t, n, steps[n].name)
                 && after.saved == states[t].saved
                 && (after.autoCommit <==> states[t].autoCommit && states[t].saved == [])
               case ForeignKeyViolation =>
                 && InnermostOpen(states, steps, t, n, steps[n].name)
                 && states[t].autoCommit && states[t].saved == [] && after == states[n]
               case NoSuchSavepoint =>
                 && after == states[n]
                 && forall u: nat :: OpenSince(states, steps, u, n) ==> steps[u].name != steps[n].name
  {
    hide Innermost;
    t := SearchFinds(states, steps, n, steps[n].name);
    RunKeepsInv(states, steps, n);
    var found := Innermost(Names(states[n].saved), steps[n].name);
    if found.Some? {
      FrameStays(states, steps, t, n);
    }
  }

  // ---------------------------------------------------------------- commits, and the other steps

  /** Step `n` ends the transaction by committing: COMMIT, or RELEASE of the outermost savepoint that opened it. */
  ghost predicate Commits(states: seq<State>, steps: seq<Step>, n: nat)
    requires n < |steps| && |states| == |steps| + 1
  {
    || (steps[n].CommitTransaction? && !states[n].autoCommit)
    || (steps[n].Release?
        && exists t: nat :: InnermostOpen(states, steps, t, n, steps[n].name) && states[t].saved == [] && states[t].autoCommit)
  }

  /**
   Over every run a commit is refused exactly when foreign keys are enforced and violations are
   outstanding, and then changes nothing; otherwise the transaction is over, nothing is staged, and
   every attached database has published what the connection saw of it.
   */
  lemma CommitRefusedIff(states: seq<State>, steps: seq<Step>, n: nat)
    requires Run(states, steps) && n < |steps| && Commits(states, steps, n)
    ensures var (before, (after, outcome)) := (states[n], Apply(states[n], steps[n]));
            && (outcome == ForeignKeyViolation <==> steps[n].fkEnabled && before.fk > 0)
            && (outcome == ForeignKeyViolation ==> after == before)
            && (outcome != ForeignKeyViolation ==>
                  && outcome == Done && after.saved == [] && after.autoCommit
                  && after.fk == (if steps[n].fkEnabled then 0 else before.fk)
                  && after.cur.main == before.cur.main && after.cur.temp == before.cur.temp && after.cur.staged == map[]
                  && after.shared.Keys == before.shared.Keys
                  && forall id :: id in after.shared ==> Some(after.shared[id]) == AttachedView(before, id))
  {
    hide Innermost;
    if steps[n].Release? {
      var t := SearchFinds(states, steps, n, steps[n].name);
      var u: nat :| InnermostOpen(states, steps, u, n, steps[n].name) && states[u].saved == [] && states[u].autoCommit;
      assert t == u;
      FrameStays(states, steps, t, n);
    }
  }

  /** The schema of one database as a statement of this connection finds it. */
  function Seen(s: State, db: Db): Option<Schema>
  {
    match db
    case MainDb => Some(s.cur.main)
    case TempDb => s.cur.temp
    case Attached(id) =>
      if id in s.cur.staged then Some(s.cur.staged[id]) else if id in s.shared then Some(s.shared[id]) else None
  }

  /** DDL changes the one schema it names, for this connection only: no other schema, no published one, no savepoint. */
  lemma DdlChangesOne(s: State, db: Db, f: Schema -> Schema)
    requires Enabled(s, Ddl(db, f))
    ensures var (after, outcome) := Apply(s, Ddl(db, f));
            && outcome == Done && Seen(s, db).Some? && Seen(after, db) == Some(f(Seen(s, db).value))
            && (forall other :: other != db ==> Seen(after, other) == Seen(s, other))
            && after == s.(cur := after.cur)
  {
    var after := Apply(s, Ddl(db, f)).0;
    forall other | other != db
      ensures Seen(after, other) == Seen(s, other)
    {
    }
  }

  /** ROLLBACK drops the stack and what was staged, shows the committed main and temp schemas, and publishes nothing. */
  lemma RollbackForgets(s: State, main: Schema, temp: Option<Schema>, fkEnabled: bool)
    requires Enabled(s, RollbackTransaction(main, temp, fkEnabled)) && !s.autoCommit
    ensures var (after, outcome) := Apply(s, RollbackTransaction(main, temp, fkEnabled));
            && outcome == Done && after.saved == [] && after.autoCommit && after.shared == s.shared
            && Seen(after, MainDb) == Some(main) && Seen(after, TempDb) == temp
            && (forall id :: id in s.shared ==> Seen(after, Attached(id)) == Some(s.shared[id]))
            && after.fk == if fkEnabled then 0 else s.fk
  {
  }

  /** The remaining steps change one thing each. */
  lemma PlainSteps(s: State, empty: Schema, name: string, fk: int, id: nat, schema: Schema)
    ensures s.cur.temp.None? ==>
              Seen(Apply(s, InitTemp(empty)).0, TempDb) == Some(empty)
              && forall db :: db != TempDb ==> Seen(Apply(s, InitTemp(empty)).0, db) == Seen(s, db)
    ensures s.autoCommit ==>
              Seen(Apply(s, ResetTemp).0, TempDb) == None && forall db :: db != TempDb ==> Seen(Apply(s, ResetTemp).0, db) == Seen(s, db)
    ensures forall db :: Seen(Apply(s, Begin(name)).0, db) == Seen(s, db)
    ensures Apply(s, BeginTransaction) == if s.autoCommit then (s.(autoCommit := false), Done) else (s, NestedTransaction)
    ensures s.autoCommit ==> forall fkEnabled :: Apply(s, CommitTransaction(fkEnabled)) == (s, NoTransaction)
    ensures s.autoCommit ==> forall fkEnabled :: Apply(s, RollbackTransaction(schema, s.cur.temp, fkEnabled)) == (s, NoTransaction)
    ensures Apply(s, Violate(fk)).0 == s.(fk := fk)
    ensures forall db :: Seen(Apply(s, Publish(id, schema)).0, db)
                      == if db == Attached(id) && id !in s.cur.staged then Some(schema) else Seen(s, db)
  {
  }
}
