/**
 What several connections see of attached and temp schemas: uncommitted DDL stays with the
 connection that made it, commit publishes it, rollback forgets it.
 */
module SchemaViews {
  import opened Common
  import Savepoints

  type Schema = Savepoints.Schema

  type Change = Schema -> Schema

  /** The temp database's schema, the snapshot taken at the last commit, and whether temp DDL ran since. */
  datatype Temp = Temp(database: Option<Schema>, committed: Option<Schema>, dirty: bool)

  /** Connection-local schemas of attached databases, and the attached databases it has an MVCC transaction on. */
  datatype Conn = Conn(staged: map<nat, Schema>, mvTxs: set<nat>, temp: Temp)

  datatype World = World(shared: map<nat, Schema>, conns: seq<Conn>)

  /** `base` is what each attached database held at first, `empty` an empty temp schema, `mvcc` the attached databases in MVCC mode. */
  datatype Env = Env(base: map<nat, Schema>, empty: Schema, mvcc: set<nat>)

  // ---------------------------------------------------------------- the temp schema

  function TempCommit(t: Temp): Temp
  {
    if !t.dirty then t else t.(committed := t.database, dirty := false)
  }

  function TempRollback(t: Temp, empty: Schema): Temp
  {
    if !t.dirty then t else t.(database := if t.committed.Some? then t.committed else Some(empty), dirty := false)
  }

  function TempDdl(t: Temp, f: Change): Temp
    requires t.database.Some?
  {
    t.(database := Some(f(t.database.value)), dirty := true)
  }

  class TempDbContext {
    var database: Option<Schema>
    var committedSchema: Option<Schema>
    var schemaDidChange: bool

    function View(): Temp
      reads this
    {
      Temp(database, committedSchema, schemaDidChange)
    }

    constructor ()
      ensures View() == Temp(None, None, false)
    {
      database, committedSchema, schemaDidChange := None, None, false;
    }

    method Reset()
      modifies this
      ensures View() == Temp(None, None, false)
    {
      database := None;
      committedSchema := None;
      schemaDidChange := false;
    }

    /** A temp DDL statement: the schema changes in place, then its cookie is set, which marks it. */
    method Ddl(f: Change)
      requires database.Some?
      modifies this
      ensures View() == TempDdl(old(View()), f)
    {
      database := Some(f(database.value));
      MarkDidChange();
    }

    method MarkDidChange()
      requires database.Some?
      modifies this`schemaDidChange
      ensures schemaDidChange
    {
      schemaDidChange := true;
    }

    method CommitSchema()
      requires schemaDidChange ==> database.Some?
      modifies this
      ensures View() == TempCommit(old(View()))
    {
      if !schemaDidChange {
        return;
      }
      var snap := database.value;
      committedSchema := Some(snap);
      schemaDidChange := false;
    }

    method RollbackSchema(empty: Schema)
      requires schemaDidChange ==> database.Some?
      modifies this
      ensures View() == TempRollback(old(View()), empty)
    {
      if !schemaDidChange {
        return;
      }
      match committedSchema {
        case Some(snap) => database := Some(snap);
        case None => database := Some(empty);
      }
      schemaDidChange := false;
    }
  }

  // ---------------------------------------------------------------- attached schemas

  /** Rolling back drops the MVCC databases it has transactions on, then every WAL-mode database. */
  function AttachedRollback(c: Conn, attached: set<nat>, mvcc: set<nat>): Conn
  {
    c.(staged := c.staged - c.mvTxs * mvcc - (attached - mvcc), mvTxs := {})
  }

  class AttachedSchemas {
    var databaseSchemas: map<nat, Schema>
    var attachedMvTxs: set<nat>

    constructor ()
      ensures databaseSchemas == map[] && attachedMvTxs == {}
    {
      databaseSchemas, attachedMvTxs := map[], {};
    }

    /** A rollback runs the first pass only in MVCC mode; otherwise no attached database can be in it. */
    method RollbackAttached(mainMvcc: bool, attached: seq<nat>, mvcc: set<nat>, ghost temp: Temp)
      requires mainMvcc || attachedMvTxs == {}
      modifies this
      ensures Conn(databaseSchemas, attachedMvTxs, temp)
           == AttachedRollback(Conn(old(databaseSchemas), old(attachedMvTxs), temp), (set id | id in attached), mvcc)
    {
      if mainMvcc {
        RollbackAttachedMvccTxs(mvcc, true);
      }
      RollbackAttachedWalTxns(attached, mvcc);
    }

    method RollbackAttachedMvccTxs(mvcc: set<nat>, clearSchemas: bool)
      modifies this
      ensures databaseSchemas == if clearSchemas then old(databaseSchemas) - old(attachedMvTxs) * mvcc else old(databaseSchemas)
      ensures attachedMvTxs == {}
    {
      var txs := attachedMvTxs;
      while txs != {}
        invariant txs <= old(attachedMvTxs)
        invariant databaseSchemas
               == if clearSchemas then old(databaseSchemas) - (old(attachedMvTxs) - txs) * mvcc else old(databaseSchemas)
        decreases |txs|
      {
        var id :| id in txs;
        txs := txs - {id};
        if id in mvcc && clearSchemas {
          databaseSchemas := databaseSchemas - {id};
        }
      }
      attachedMvTxs := {};
    }

    method RollbackAttachedWalTxns(attached: seq<nat>, mvcc: set<nat>)
      modifies this`databaseSchemas
      ensures databaseSchemas == old(databaseSchemas) - ((set id | id in attached) - mvcc)
    {
      var wal: seq<nat> := [];
      for i := 0 to |attached|
        invariant forall id :: id in wal <==> id in attached[..i] && id !in mvcc
      {
        if attached[i] !in mvcc {
          wal := wal + [attached[i]];
        }
      }
      for i := 0 to |wal|
        invariant databaseSchemas == old(databaseSchemas) - (set id | id in wal[..i])
      {
        databaseSchemas := databaseSchemas - {wal[i]};
      }
      assert wal[..|wal|] == wal && attached[..|attached|] == attached;
      assert (set id | id in wal) == (set id | id in attached) - mvcc;
    }
  }

  // ---------------------------------------------------------------- the protocol

  datatype Step =
    | Ddl(c: nat, id: nat, f: Change)
    | Publish(c: nat, id: nat)
    | Discard(c: nat, id: nat)
    | RollbackAll(c: nat)
    | OpenTemp(c: nat)
    | ChangeTemp(c: nat, f: Change)
    | CommitTemp(c: nat)
    | RollbackTemp(c: nat)
    | ResetTemp(c: nat)

  /**
   DDL needs the database attached and no one else holding uncommitted DDL on it; temp DDL needs an
   open temp database, and a reset no uncommitted temp DDL.
   */
  predicate Enabled(w: World, step: Step)
  {
    step.c < |w.conns| &&
    match step
    case Ddl(c, id, _) => id in w.shared && forall d :: 0 <= d < |w.conns| && d != c ==> id !in w.conns[d].staged
    case OpenTemp(c) => w.conns[c].temp.database.None?
    case ChangeTemp(c, _) => w.conns[c].temp.database.Some?
    case ResetTemp(c) => !w.conns[c].temp.dirty
    case _ => true
  }

  function ConnAfter(env: Env, w: World, step: Step): Conn
    requires Enabled(w, step)
  {
    var conn := w.conns[step.c];
    match step
    case Ddl(_, id, f) =>
      conn.(staged := conn.staged[id := f(if id in conn.staged then conn.staged[id] else w.shared[id])],
            mvTxs := if id in env.mvcc then conn.mvTxs + {id} else conn.mvTxs)
    case Publish(_, id) => conn.(staged := conn.staged - {id}, mvTxs := conn.mvTxs - {id})
    case Discard(_, id) => conn.(staged := conn.staged - {id})
    case RollbackAll(_) => AttachedRollback(conn, w.shared.Keys, env.mvcc)
    case OpenTemp(_) => conn.(temp := conn.temp.(database := Some(env.empty)))
    case ChangeTemp(_, f) => conn.(temp := TempDdl(conn.temp, f))
    case CommitTemp(_) => conn.(temp := TempCommit(conn.temp))
    case RollbackTemp(_) => conn.(temp := TempRollback(conn.temp, env.empty))
    case ResetTemp(_) => conn.(temp := Temp(None, None, false))
  }

  function Next(env: Env, w: World, step: Step): World
    requires Enabled(w, step)
  {
    World(if step.Publish? && step.id in w.conns[step.c].staged && step.id in w.shared
          then w.shared[step.id := w.conns[step.c].staged[step.id]] else w.shared,
          w.conns[step.c := ConnAfter(env, w, step)])
  }

  /** What connection `c` sees of attached database `id`. */
  function AttachedSeen(w: World, c: nat, id: nat): Schema
    requires c < |w.conns| && id in w.shared
  {
    if id in w.conns[c].staged then w.conns[c].staged[id] else w.shared[id]
  }

  function TempSeen(env: Env, w: World, c: nat): Schema
    requires c < |w.conns|
  {
    var t := w.conns[c].temp;
    if t.database.Some? then t.database.value else env.empty
  }

  // ---------------------------------------------------------------- the reference: DDL as history

  ghost function Replay(base: Schema, changes: seq<Change>): Schema
  {
    if changes == [] then base else changes[|changes| - 1](Replay(base, changes[..|changes| - 1]))
  }

  /** DDL each connection has made and not committed. */
  datatype Uncommitted = Uncommitted(attached: map<nat, seq<Change>>, tempCommitted: seq<Change>, temp: seq<Change>)

  /** DDL committed to each attached database, and what each connection has on top. */
  datatype History = History(committed: map<nat, seq<Change>>, own: seq<Uncommitted>)

  ghost function Own(h: History, c: nat, id: nat): seq<Change>
    requires c < |h.own|
  {
    if id in h.own[c].attached then h.own[c].attached[id] else []
  }

  /** The history a step makes, without looking at any schema. */
  ghost function Recorded(h: History, step: Step): History
    requires step.c < |h.own|
  {
    var own := h.own[step.c];
    match step
    case Ddl(c, id, f) => h.(own := h.own[c := own.(attached := own.attached[id := Own(h, c, id) + [f]])])
    case Publish(c, id) =>
      History(if id in h.committed then h.committed[id := h.committed[id] + Own(h, c, id)] else h.committed,
              h.own[c := own.(attached := own.attached - {id})])
    case Discard(c, id) => h.(own := h.own[c := own.(attached := own.attached - {id})])
    case RollbackAll(c) => h.(own := h.own[c := own.(attached := map[])])
    case OpenTemp(_) => h
    case ChangeTemp(c, f) => h.(own := h.own[c := own.(temp := own.temp + [f])])
    case CommitTemp(c) => h.(own := h.own[c := own.(tempCommitted := own.tempCommitted + own.temp, temp := [])])
    case RollbackTemp(c) => h.(own := h.own[c := own.(temp := [])])
    case ResetTemp(c) => h.(own := h.own[c := own.(tempCommitted := [], temp := [])])
  }

  ghost predicate TempInSync(env: Env, t: Temp, u: Uncommitted)
  {
    && (t.dirty <==> u.temp != [])
    && t.committed == (if u.tempCommitted == [] then None else Some(Replay(env.empty, u.tempCommitted)))
    && if t.database.None? then u.temp == [] && u.tempCommitted == []
       else t.database.value == Replay(env.empty, u.tempCommitted + u.temp)
  }

  ghost predicate ConnInSync(env: Env, h: History, conn: Conn, u: Uncommitted)
  {
    && conn.staged.Keys == u.attached.Keys && conn.staged.Keys <= h.committed.Keys && h.committed.Keys == env.base.Keys
    && conn.staged.Keys * env.mvcc <= conn.mvTxs
    && (forall id :: id in conn.staged ==> conn.staged[id] == Replay(env.base[id], h.committed[id] + u.attached[id]))
    && TempInSync(env, conn.temp, u)
  }

  ghost predicate SharedInSync(env: Env, h: History, shared: map<nat, Schema>)
  {
    && shared.Keys == h.committed.Keys && h.committed.Keys == env.base.Keys
    && forall id :: id in shared ==> shared[id] == Replay(env.base[id], h.committed[id])
  }

  /** No two connections have uncommitted DDL on the same attached database. */
  ghost predicate OneWriter(w: World)
  {
    forall c, d, id :: 0 <= c < d < |w.conns| ==> !(id in w.conns[c].staged && id in w.conns[d].staged)
  }

  ghost predicate InSync(env: Env, w: World, h: History)
  {
    && |w.conns| == |h.own| && SharedInSync(env, h, w.shared) && OneWriter(w)
    && forall c :: 0 <= c < |w.conns| ==> ConnInSync(env, h, w.conns[c], h.own[c])
  }

  // ---------------------------------------------------------------- the two agree, over every interleaving

  lemma ReplaySnoc(base: Schema, changes: seq<Change>, f: Change)
    ensures Replay(base, changes + [f]) == f(Replay(base, changes))
  {
    assert (changes + [f])[..|changes|] == changes;
  }

  /** One more change of a connection's own, on top of what was committed. */
  lemma OwnSnoc(base: Schema, committed: seq<Change>, own: seq<Change>, f: Change)
    ensures Replay(base, committed + (own + [f])) == f(Replay(base, committed + own))
  {
    assert committed + (own + [f]) == committed + own + [f];
    ReplaySnoc(base, committed + own, f);
  }

  lemma TempStep(env: Env, t: Temp, u: Uncommitted, f: Change)
    requires TempInSync(env, t, u)
    ensures t.database.Some? ==> TempInSync(env, TempDdl(t, f), u.(temp := u.temp + [f]))
    ensures TempInSync(env, TempCommit(t), u.(tempCommitted := u.tempCommitted + u.temp, temp := []))
    ensures TempInSync(env, TempRollback(t, env.empty), u.(temp := []))
    ensures t.database.None? ==> TempInSync(env, t.(database := Some(env.empty)), u)
  {
    OwnSnoc(env.empty, u.tempCommitted, u.temp, f);
    assert u.tempCommitted + [] == u.tempCommitted;
    assert u.tempCommitted + u.temp + [] == u.tempCommitted + u.temp;
  }

  predicate OnTemp(step: Step) { step.OpenTemp? || step.ChangeTemp? || step.CommitTemp? || step.RollbackTemp? || step.ResetTemp? }

  /** The connection that runs DDL on an attached database. */
  lemma DdlActor(env: Env, w: World, h: History, step: Step)
    requires InSync(env, w, h) && Enabled(w, step) && step.Ddl?
    ensures ConnInSync(env, Recorded(h, step), ConnAfter(env, w, step), Recorded(h, step).own[step.c])
  {
    hide Replay, TempInSync, OneWriter;
    var conn, u := w.conns[step.c], h.own[step.c];
    assert ConnInSync(env, h, conn, u);
    OwnSnoc(env.base[step.id], h.committed[step.id], Own(h, step.c, step.id), step.f);
    assert h.committed[step.id] + [] == h.committed[step.id];
    TempOf(env, conn.temp, u, Recorded(h, step).own[step.c]);
  }

  /** The connection that publishes or drops what it staged. */
  lemma EndActor(env: Env, w: World, h: History, step: Step)
    requires InSync(env, w, h) && Enabled(w, step) && (step.Publish? || step.Discard? || step.RollbackAll?)
    ensures ConnInSync(env, Recorded(h, step), ConnAfter(env, w, step), Recorded(h, step).own[step.c])
  {
    hide Replay, TempInSync, OneWriter;
    var conn, u := w.conns[step.c], h.own[step.c];
    assert ConnInSync(env, h, conn, u);
    if step.RollbackAll? {
      assert forall id :: id in conn.staged ==> id in conn.mvTxs * env.mvcc || id in w.shared.Keys - env.mvcc;
      assert AttachedRollback(conn, w.shared.Keys, env.mvcc).staged == map[];
    }
    TempOf(env, conn.temp, u, Recorded(h, step).own[step.c]);
  }

  lemma TempOf(env: Env, t: Temp, u: Uncommitted, v: Uncommitted)
    requires TempInSync(env, t, u) && v.temp == u.temp && v.tempCommitted == u.tempCommitted
    ensures TempInSync(env, t, v)
  {
  }

  /** The connection that takes the step, on its temp database. */
  lemma TempActor(env: Env, w: World, h: History, step: Step)
    requires InSync(env, w, h) && Enabled(w, step) && OnTemp(step)
    ensures ConnInSync(env, Recorded(h, step), ConnAfter(env, w, step), Recorded(h, step).own[step.c])
  {
    hide Replay, TempCommit, TempRollback, TempDdl, OneWriter, SharedInSync;
    var conn, u := w.conns[step.c], h.own[step.c];
    assert ConnInSync(env, h, conn, u);
    TempStep(env, conn.temp, u, if step.ChangeTemp? then step.f else x => x);
  }

  lemma NothingToPublish(h: History, step: Step)
    requires step.Publish? && step.c < |h.own| && step.id !in h.own[step.c].attached
    ensures Recorded(h, step).committed == h.committed
  {
    if step.id in h.committed {
      assert h.committed[step.id] + [] == h.committed[step.id];
    }
  }

  /** Everyone else: a publication touches only a database they have nothing staged on. */
  lemma BystanderInSync(env: Env, w: World, h: History, step: Step, d: nat)
    requires InSync(env, w, h) && Enabled(w, step) && d < |w.conns| && d != step.c
    ensures ConnInSync(env, Recorded(h, step), w.conns[d], h.own[d])
  {
    hide Replay, TempInSync;
    assert ConnInSync(env, h, w.conns[d], h.own[d]);
    assert ConnInSync(env, h, w.conns[step.c], h.own[step.c]);
    if step.Publish? {
      if step.id in w.conns[step.c].staged {
        assert d < step.c || step.c < d;
        assert step.id !in w.conns[d].staged;
      } else {
        NothingToPublish(h, step);
      }
    }
  }

  lemma SharedStep(env: Env, w: World, h: History, step: Step)
    requires InSync(env, w, h) && Enabled(w, step)
    ensures SharedInSync(env, Recorded(h, step), Next(env, w, step).shared)
  {
    hide Replay, TempInSync;
    assert ConnInSync(env, h, w.conns[step.c], h.own[step.c]);
    if step.Publish? && step.id !in w.conns[step.c].staged {
      NothingToPublish(h, step);
    }
  }

  lemma OneWriterStep(env: Env, w: World, step: Step)
    requires OneWriter(w) && Enabled(w, step)
    ensures OneWriter(Next(env, w, step))
  {
    hide TempCommit, TempRollback, TempDdl;
    var w' := Next(env, w, step);
    assert step.Ddl? || ConnAfter(env, w, step).staged.Keys <= w.conns[step.c].staged.Keys;
    forall c, d, id | 0 <= c < d < |w'.conns|
      ensures !(id in w'.conns[c].staged && id in w'.conns[d].staged)
    {
      assert !(id in w.conns[c].staged && id in w.conns[d].staged);
    }
  }

  /** Every step keeps every connection's schemas equal to what the history says they are. */
  lemma StepStaysInSync(env: Env, w: World, h: History, step: Step)
    requires InSync(env, w, h) && Enabled(w, step)
    ensures InSync(env, Next(env, w, step), Recorded(h, step))
  {
    var w', h' := Next(env, w, step), Recorded(h, step);
    hide ConnInSync, SharedInSync, OneWriter, ConnAfter;
    SharedStep(env, w, h, step);
    OneWriterStep(env, w, step);
    forall d | 0 <= d < |w'.conns|
      ensures ConnInSync(env, h', w'.conns[d], h'.own[d])
    {
      if d == step.c {
        if OnTemp(step) {
          TempActor(env, w, h, step);
        } else if step.Ddl? {
          DdlActor(env, w, h, step);
        } else {
          EndActor(env, w, h, step);
        }
      } else {
        BystanderInSync(env, w, h, step, d);
      }
    }
  }

  /** A connection sees the committed DDL followed by its own uncommitted DDL, and no one else's. */
  lemma SeesCommittedPlusOwn(env: Env, w: World, h: History, c: nat)
    requires InSync(env, w, h) && c < |w.conns|
    ensures forall id :: id in w.shared ==> AttachedSeen(w, c, id) == Replay(env.base[id], h.committed[id] + Own(h, c, id))
    ensures TempSeen(env, w, c) == Replay(env.empty, h.own[c].tempCommitted + h.own[c].temp)
  {
    assert ConnInSync(env, h, w.conns[c], h.own[c]);
    forall id | id in w.shared
      ensures AttachedSeen(w, c, id) == Replay(env.base[id], h.committed[id] + Own(h, c, id))
    {
      assert h.committed[id] + [] == h.committed[id];
    }
  }

  /** Rolling back returns a connection to what is committed: for temp, to the last commit or to empty. */
  lemma RollbackSeesCommitted(env: Env, w: World, h: History, c: nat)
    requires InSync(env, w, h) && c < |w.conns|
    ensures var w' := Next(env, w, RollbackAll(c));
            forall id :: id in w.shared ==> AttachedSeen(w', c, id) == Replay(env.base[id], h.committed[id])
    ensures TempSeen(env, Next(env, w, RollbackTemp(c)), c) == Replay(env.empty, h.own[c].tempCommitted)
  {
    var own := h.own[c];
    StepStaysInSync(env, w, h, RollbackAll(c));
    SeesCommittedPlusOwn(env, Next(env, w, RollbackAll(c)), Recorded(h, RollbackAll(c)), c);
    StepStaysInSync(env, w, h, RollbackTemp(c));
    SeesCommittedPlusOwn(env, Next(env, w, RollbackTemp(c)), Recorded(h, RollbackTemp(c)), c);
    assert own.tempCommitted + [] == own.tempCommitted;
    forall id | id in w.shared
      ensures h.committed[id] + [] == h.committed[id]
    {
    }
  }

  // ---------------------------------------------------------------- runs

  ghost predicate Run(env: Env, worlds: seq<World>, steps: seq<Step>)
  {
    && |worlds| == |steps| + 1
    && forall i :: 0 <= i < |steps| ==>
         Enabled(worlds[i], steps[i]) && worlds[i + 1] == Next(env, worlds[i], steps[i])
  }

  /** Nothing staged and no temp database. */
  predicate Fresh(env: Env, w: World)
  {
    w.shared == env.base && forall c :: 0 <= c < |w.conns| ==> w.conns[c] == Conn(map[], {}, Temp(None, None, false))
  }

  function NoChanges(ids: set<nat>): map<nat, seq<Change>> { map id | id in ids :: [] }

  function NoHistory(env: Env, n: nat): History
  {
    History(NoChanges(env.base.Keys), seq(n, _ => Uncommitted(map[], [], [])))
  }

  ghost function HistoryOf(env: Env, worlds: seq<World>, steps: seq<Step>, n: nat): History
    requires Run(env, worlds, steps) && n <= |steps| && Fresh(env, worlds[0])
    ensures InSync(env, worlds[n], HistoryOf(env, worlds, steps, n))
  {
    if n == 0 then
      FreshInSync(env, worlds[0]);
      NoHistory(env, |worlds[0].conns|)
    else
      StepStaysInSync(env, worlds[n - 1], HistoryOf(env, worlds, steps, n - 1), steps[n - 1]);
      Recorded(HistoryOf(env, worlds, steps, n - 1), steps[n - 1])
  }

  lemma FreshInSync(env: Env, w: World)
    requires Fresh(env, w)
    ensures InSync(env, w, NoHistory(env, |w.conns|))
  {
  }

  /** At every moment of every interleaving, each connection sees the committed DDL plus only its own. */
  lemma AlwaysCommittedPlusOwn(env: Env, worlds: seq<World>, steps: seq<Step>, n: nat, c: nat)
    requires Run(env, worlds, steps) && n <= |steps| && Fresh(env, worlds[0]) && c < |worlds[n].conns|
    ensures var h := HistoryOf(env, worlds, steps, n);
            && (forall id :: id in worlds[n].shared ==>
                  AttachedSeen(worlds[n], c, id) == Replay(env.base[id], h.committed[id] + Own(h, c, id)))
            && TempSeen(env, worlds[n], c) == Replay(env.empty, h.own[c].tempCommitted + h.own[c].temp)
  {
    SeesCommittedPlusOwn(env, worlds[n], HistoryOf(env, worlds, steps, n), c);
  }
}
