/**
 Bringing the AUTOINCREMENT backing tables up to the marks kept in sqlite_sequence: a driver that
 may be suspended for I/O between any two steps and is resumed where it left off.
 */
module AutoincSync {
  import opened Common

  // ---------------------------------------------------------------- backing tables

  /** A sequence descriptor, part of the schema and repeated in every backing-table row. */
  datatype Sequence = Sequence(start: int64, inc: int64, min: int64, max: int64, cycle: bool)

  const AUTOINCREMENT: Sequence := Sequence(1, 1, 1, INT64_MAX, false)

  /** A backing-table row besides its key, the sequence value. */
  datatype Row = Row(called: bool, descriptor: Sequence)

  type Table = map<int64, Row>

  /** Backing tables by name, and the watermarks the MVCC store keeps in memory. */
  datatype Seqs = Seqs(tables: map<string, Table>, marks: map<string, int64>)

  /** The row the sync writes: an AUTOINCREMENT descriptor, already handed out. */
  const CALLED: Row := Row(true, AUTOINCREMENT)

  /** A row of sqlite_sequence; `mark` is nothing when it is not an integer. */
  datatype SeqRow = SeqRow(name: string, mark: Option<int64>)

  /** What does not change while the driver runs: whether sqlite_sequence and an MVCC store exist, and how names resolve. */
  datatype Setting = Setting(hasSequenceTable: bool, hasMvStore: bool, seqRows: seq<SeqRow>, resolve: string -> string)

  predicate IsLast(t: Table, m: int64) { m in t && forall k :: k in t ==> k <= m }

  /** One more increment would leave the sequence's range, or 64 bits. */
  predicate Exhausted(q: Sequence, m: int64)
  {
    var next := m + q.inc;
    || next < -INT64_MAX - 1 || next > INT64_MAX
    || (q.inc > 0 && next > q.max) || (q.inc < 0 && next < q.min)
  }

  /** The value the sequence `q` generates when the last row is `row` at `m`; nothing when it is exhausted. The descriptor is the schema's, not the row's copy. */
  function NextAfter(q: Sequence, m: int64, row: Row): Option<int64>
  {
    if !row.called then Some(m)
    else if !Exhausted(q, m) then Some(m + q.inc)
    else if q.cycle then Some(if q.inc > 0 then q.min else q.max)
    else None
  }

  /** The MVCC watermark for a value handed out: the next one, or the value itself at the end of the range. */
  function FirstUnsafe(w: int64): int64 { if w + 1 > INT64_MAX then w else w + 1 }

  // ---------------------------------------------------------------- what the sync means

  predicate Ahead(t: Table, w: int64) { exists k :: k in t && k > w }

  /** One recorded mark: nothing when the table is strictly ahead, else the mark is written as handed out. */
  function SyncOne(env: Setting, s: Seqs, name: string, w: int64): Seqs
  {
    var key := env.resolve(name);
    if key !in s.tables || Ahead(s.tables[key], w) then s
    else Upserted(env, s, name, w)
  }

  function Written(t: Table, w: int64): Table { t[w := CALLED] }

  function Upserted(env: Setting, s: Seqs, name: string, w: int64): Seqs
    requires env.resolve(name) in s.tables
  {
    Marked(env, Seqs(s.tables[env.resolve(name) := Written(s.tables[env.resolve(name)], w)], s.marks), name, w)
  }

  function Marked(env: Setting, s: Seqs, name: string, w: int64): Seqs
  {
    if env.hasMvStore then s.(marks := s.marks[env.resolve(name) := FirstUnsafe(w)]) else s
  }

  function SyncAll(env: Setting, s: Seqs, rows: seq<(string, int64)>): Seqs
    decreases |rows|
  {
    if rows == [] then s else SyncAll(env, SyncOne(env, s, rows[0].0, rows[0].1), rows[1..])
  }

  predicate AllIntegers(rows: seq<SeqRow>) { forall i :: 0 <= i < |rows| ==> rows[i].mark.Some? }

  function Decoded(rows: seq<SeqRow>): seq<(string, int64)>
    requires AllIntegers(rows)
  {
    seq(|rows|, i requires 0 <= i < |rows| => (rows[i].name, rows[i].mark.value))
  }

  // ---------------------------------------------------------------- the driver

  datatype RowStep = StartRow | ReadMax(table: string, stepped: bool, currentMax: Option<int64>) | Upsert(table: string, written: bool)

  /** `at` is how far the statement over sqlite_sequence has got. */
  datatype SyncState =
    | Start
    | ReadSeqRows(at: nat, rows: seq<(string, int64)>)
    | Process(rows: seq<(string, int64)>, idx: nat, sub: RowStep)

  datatype Progress = Continue | Waiting | Done | Failed

  /** How the run ends: the tables it leaves, or an error that has touched nothing. */
  datatype Ending = Ended(s: Seqs) | Refused(s: Seqs)

  /** A suspended state remembers exactly what it had found. */
  ghost predicate Consistent(env: Setting, state: SyncState, s: Seqs)
  {
    match state
    case Start => true
    case ReadSeqRows(at, rows) =>
      at <= |env.seqRows| && AllIntegers(env.seqRows[..at]) && rows == Decoded(env.seqRows[..at])
    case Process(rows, idx, sub) =>
      && idx <= |rows| <= |env.seqRows|
      && match sub
         case StartRow => true
         case ReadMax(table, stepped, m) =>
           && idx < |rows| && table == env.resolve(rows[idx].0) && table in s.tables
           && (stepped ==> MaxOf(s.tables[table], m))
         case Upsert(table, written) =>
           && idx < |rows| && table == env.resolve(rows[idx].0) && table in s.tables
           && (if written then rows[idx].1 in s.tables[table] && s.tables[table][rows[idx].1] == CALLED
               else !Ahead(s.tables[table], rows[idx].1))
  }

  predicate MaxOf(t: Table, m: Option<int64>) { if m.None? then t == map[] else IsLast(t, m.value) }

  /** The end a state leads to, however it is suspended on the way. */
  ghost function EndOf(env: Setting, state: SyncState, s: Seqs): Ending
    requires Consistent(env, state, s)
  {
    match state
    case Start =>
      if !env.hasSequenceTable then Ended(s)
      else if AllIntegers(env.seqRows) then Ended(SyncAll(env, s, Decoded(env.seqRows)))
      else Refused(s)
    case ReadSeqRows(_, _) =>
      if AllIntegers(env.seqRows) then Ended(SyncAll(env, s, Decoded(env.seqRows))) else Refused(s)
    case Process(rows, idx, sub) =>
      if sub.Upsert? then
        var (name, w) := rows[idx];
        Ended(SyncAll(env, if sub.written then Marked(env, s, name, w) else Upserted(env, s, name, w), rows[idx + 1..]))
      else Ended(SyncAll(env, s, rows[idx..]))
  }

  /** Steps left without a wait. */
  function Work(env: Setting, state: SyncState): int
  {
    var n := |env.seqRows|;
    match state
    case Start => 7 * n + 3
    case ReadSeqRows(at, _) => 7 * n + 2 - at
    case Process(rows, idx, sub) =>
      6 * (|rows| - idx) - (match sub
                            case StartRow => 0
                            case ReadMax(_, stepped, _) => if stepped then 2 else 1
                            case Upsert(_, written) => if written then 4 else 3)
  }

  class SyncDriver {
    const env: Setting
    var state: SyncState
    var seqs: Seqs
    /** Whether each coming statement step has to wait for I/O; it waits no more once this runs out. */
    var waits: seq<bool>

    ghost predicate Valid()
      reads this
    {
      Consistent(env, state, seqs)
    }

    ghost function Ending(): Ending
      requires Valid()
      reads this
    {
      EndOf(env, state, seqs)
    }

    constructor (env: Setting, seqs: Seqs, waits: seq<bool>)
      ensures Valid() && state == Start && this.env == env && this.seqs == seqs && this.waits == waits
    {
      this.env, this.seqs, this.waits, state := env, seqs, waits, Start;
    }

    /** The next wait for I/O is due. */
    predicate Blocked()
      reads this
    {
      waits != [] && waits[0]
    }

    method MustWait() returns (wait: bool)
      modifies this`waits
      ensures wait == old(Blocked()) && waits == if old(waits) == [] then [] else old(waits)[1..]
    {
      wait := waits != [] && waits[0];
      if waits != [] {
        waits := waits[1..];
      }
    }

    /** One pass of the driver's loop. */
    method StepOnce() returns (r: Progress)
      requires Valid()
      modifies this`state, this`seqs, this`waits
      ensures Valid() && |waits| <= |old(waits)| && Ending() == old(Ending())
      ensures r == Continue ==> 0 <= Work(env, state) < old(Work(env, state))
      ensures r == Waiting ==> |waits| < |old(waits)|
      ensures r == Done ==> Ending() == Ended(seqs)
      ensures r == Failed ==> Ending() == Refused(seqs)
      ensures waits == old(waits) || (old(waits) != [] && waits == old(waits)[1..])
      ensures r == Waiting ==> old(Blocked()) && state == old(state) && seqs == old(seqs)
    {
      match state {
        case Start => r := StepStart();
        case ReadSeqRows(_, _) => r := StepRead();
        case Process(rows, idx, sub) =>
          if idx >= |rows| {
            return Done;
          }
          match sub {
            case StartRow => r := StepRow();
            case ReadMax(_, _, _) => r := StepMax();
            case Upsert(_, _) => r := StepUpsert();
          }
      }
    }

    method StepStart() returns (r: Progress)
      requires Valid() && state.Start?
      modifies this`state
      ensures Valid() && Ending() == old(Ending())
      ensures if r == Continue then 0 <= Work(env, state) < old(Work(env, state)) else r == Done && Ending() == Ended(seqs)
    {
      if !env.hasSequenceTable {
        return Done;
      }
      state := ReadSeqRows(0, []);
      r := Continue;
    }

    method StepRead() returns (r: Progress)
      requires Valid() && state.ReadSeqRows?
      modifies this`state, this`waits
      ensures Valid() && Ending() == old(Ending())
      ensures match r
              case Continue => 0 <= Work(env, state) < old(Work(env, state))
              case Waiting => |waits| < |old(waits)|
              case Failed => Ending() == Refused(seqs)
              case Done => false
      ensures r == Waiting <==> old(Blocked())
      ensures r == Waiting ==> state == old(state)
      ensures waits == if old(waits) == [] then [] else old(waits)[1..]
    {
      var wait := MustWait();
      if wait {
        return Waiting;
      }
      var at, rows := state.at, state.rows;
      if at == |env.seqRows| {
        assert env.seqRows[..at] == env.seqRows && rows[0..] == rows;
        state := Process(rows, 0, StartRow);
        return Continue;
      }
      if env.seqRows[at].mark.None? {
        return Failed;
      }
      state := ReadSeqRows(at + 1, rows + [(env.seqRows[at].name, env.seqRows[at].mark.value)]);
      assert env.seqRows[..at + 1] == env.seqRows[..at] + [env.seqRows[at]];
      r := Continue;
    }

    method StepRow() returns (r: Progress)
      requires Valid() && state.Process? && state.sub == StartRow && state.idx < |state.rows|
      modifies this`state
      ensures Valid() && Ending() == old(Ending())
      ensures r == Continue && 0 <= Work(env, state) < old(Work(env, state))
    {
      var rows, idx := state.rows, state.idx;
      var table := env.resolve(rows[idx].0);
      if table !in seqs.tables {
        RowDone(env, seqs, rows, idx);
        state := state.(idx := idx + 1);
      } else {
        state := state.(sub := ReadMax(table, false, None));
      }
      r := Continue;
    }

    method StepMax() returns (r: Progress)
      requires Valid() && state.Process? && state.sub.ReadMax?
      modifies this`state, this`waits
      ensures Valid() && Ending() == old(Ending())
      ensures if r == Continue then 0 <= Work(env, state) < old(Work(env, state)) else r == Waiting && |waits| < |old(waits)|
      ensures r == Waiting <==> old(Blocked())
      ensures r == Waiting ==> state == old(state)
      ensures waits == if old(waits) == [] then [] else old(waits)[1..]
    {
      var wait := MustWait();
      if wait {
        return Waiting;
      }
      r := Continue;
      var rows, idx, sub := state.rows, state.idx, state.sub;
      if !sub.stepped {
        var m := SelectMax(seqs.tables[sub.table]);
        state := state.(sub := sub.(stepped := true, currentMax := m));
        return;
      }
      RowDone(env, seqs, rows, idx);
      var watermark := rows[idx].1;
      if sub.currentMax.Some? && sub.currentMax.value > watermark {
        assert Ahead(seqs.tables[sub.table], watermark);
        state := state.(idx := idx + 1, sub := StartRow);
      } else {
        state := state.(sub := Upsert(sub.table, false));
      }
    }

    method StepUpsert() returns (r: Progress)
      requires Valid() && state.Process? && state.sub.Upsert?
      modifies this`state, this`seqs, this`waits
      ensures Valid() && Ending() == old(Ending())
      ensures if r == Continue then 0 <= Work(env, state) < old(Work(env, state)) else r == Waiting && |waits| < |old(waits)|
      ensures r == Waiting <==> old(Blocked())
      ensures r == Waiting ==> state == old(state) && seqs == old(seqs)
      ensures waits == if old(waits) == [] then [] else old(waits)[1..]
    {
      var wait := MustWait();
      if wait {
        return Waiting;
      }
      r := Continue;
      var rows, idx, sub := state.rows, state.idx, state.sub;
      if !sub.written {
        seqs := seqs.(tables := seqs.tables[sub.table := Written(seqs.tables[sub.table], rows[idx].1)]);
        state := state.(sub := sub.(written := true));
        return;
      }
      seqs := Marked(env, seqs, rows[idx].0, rows[idx].1);
      state := state.(idx := idx + 1, sub := StartRow);
    }

    /** One call of the driver: it returns when done, when it failed, or when it has to wait. */
    method Poll() returns (r: Progress)
      requires Valid()
      modifies this`state, this`seqs, this`waits
      ensures Valid() && |waits| <= |old(waits)| && Ending() == old(Ending()) && r != Continue
      ensures r == Waiting ==> |waits| < |old(waits)| && true in old(waits)
      ensures r == Done ==> Ending() == Ended(seqs)
      ensures r == Failed ==> Ending() == Refused(seqs)
    {
      hide Consistent, EndOf, Work;
      r := StepOnce();
      while r == Continue
        invariant Valid() && |waits| <= |old(waits)| && Ending() == old(Ending())
        invariant r == Continue ==> Work(env, state) >= 0
        invariant r == Waiting ==> |waits| < |old(waits)| && true in old(waits)
        invariant forall w :: w in waits ==> w in old(waits)
        invariant r == Done ==> Ending() == Ended(seqs)
        invariant r == Failed ==> Ending() == Refused(seqs)
        decreases r == Continue, Work(env, state)
      {
        r := StepOnce();
      }
    }
  }

  /** MAX(value): null over an empty table. */
  method SelectMax(t: Table) returns (m: Option<int64>)
    ensures MaxOf(t, m)
  {
    m := None;
    var left: set<int64> := t.Keys;
    while left != {}
      invariant left <= t.Keys
      invariant m.None? ==> left == t.Keys
      invariant m.Some? ==> m.value in t && forall k :: k in t && k !in left ==> k <= m.value
      decreases |left|
    {
      var k :| k in left;
      left := left - {k};
      if m.None? || k > m.value {
        m := Some(k);
      }
    }
  }

  lemma RowDone(env: Setting, s: Seqs, rows: seq<(string, int64)>, idx: nat)
    requires idx < |rows|
    ensures SyncAll(env, s, rows[idx..]) == SyncAll(env, SyncOne(env, s, rows[idx].0, rows[idx].1), rows[idx + 1..])
  {
    assert rows[idx..][0] == rows[idx] && rows[idx..][1..] == rows[idx + 1..];
  }

  /** Polled again after every wait, the sync ends as one uninterrupted pass over the rows would. */
  method RunToEnd(env: Setting, seqs: Seqs, waits: seq<bool>) returns (ok: bool, after: Seqs)
    ensures if !env.hasSequenceTable then ok && after == seqs
            else if AllIntegers(env.seqRows) then ok && after == SyncAll(env, seqs, Decoded(env.seqRows))
            else !ok && after == seqs
  {
    var driver := new SyncDriver(env, seqs, waits);
    ghost var ending := driver.Ending();
    var r := driver.Poll();
    while r == Waiting
      invariant driver.Valid() && driver.Ending() == ending && r != Continue
      invariant r == Done ==> ending == Ended(driver.seqs)
      invariant r == Failed ==> ending == Refused(driver.seqs)
      decreases r == Waiting, |driver.waits|
    {
      r := driver.Poll();
    }
    ok, after := r == Done, driver.seqs;
  }

  // ---------------------------------------------------------------- what the sync guarantees

  /** The mark is behind the table, or is its last row and already handed out. */
  predicate Covered(env: Setting, s: Seqs, name: string, w: int64)
  {
    var key := env.resolve(name);
    key in s.tables ==>
      || Ahead(s.tables[key], w)
      || (w in s.tables[key] && s.tables[key][w] == CALLED && (env.hasMvStore ==> key in s.marks && s.marks[key] == FirstUnsafe(w)))
  }

  lemma SyncOneCovers(env: Setting, s: Seqs, name: string, w: int64)
    ensures Covered(env, SyncOne(env, s, name, w), name, w)
    ensures SyncOne(env, s, name, w).tables.Keys == s.tables.Keys
  {
  }

  lemma CoveredStays(env: Setting, s: Seqs, name: string, w: int64, other: string, v: int64)
    requires Covered(env, s, name, w)
    ensures Covered(env, SyncOne(env, s, other, v), name, w)
  {
    var key := env.resolve(name);
    var after := SyncOne(env, s, other, v);
    if key in s.tables && env.resolve(other) == key && after != s {
      if v > w {
        assert v in after.tables[key];
      }
    }
  }

  lemma {:induction false} AllStayCovered(env: Setting, s: Seqs, rows: seq<(string, int64)>, name: string, w: int64)
    requires Covered(env, s, name, w)
    ensures Covered(env, SyncAll(env, s, rows), name, w)
    decreases |rows|
  {
    if rows != [] {
      CoveredStays(env, s, name, w, rows[0].0, rows[0].1);
      AllStayCovered(env, SyncOne(env, s, rows[0].0, rows[0].1), rows[1..], name, w);
    }
  }

  lemma {:induction false} SyncCovers(env: Setting, s: Seqs, rows: seq<(string, int64)>, i: nat)
    requires i < |rows|
    ensures Covered(env, SyncAll(env, s, rows), rows[i].0, rows[i].1)
    ensures SyncAll(env, s, rows).tables.Keys == s.tables.Keys
    decreases |rows|
  {
    var next := SyncOne(env, s, rows[0].0, rows[0].1);
    SyncOneCovers(env, s, rows[0].0, rows[0].1);
    if i == 0 {
      AllStayCovered(env, next, rows[1..], rows[0].0, rows[0].1);
      SameTables(env, next, rows[1..]);
    } else {
      SyncCovers(env, next, rows[1..], i - 1);
    }
  }

  lemma {:induction false} SameTables(env: Setting, s: Seqs, rows: seq<(string, int64)>)
    ensures SyncAll(env, s, rows).tables.Keys == s.tables.Keys
    decreases |rows|
  {
    if rows != [] {
      SameTables(env, SyncOne(env, s, rows[0].0, rows[0].1), rows[1..]);
    }
  }

  /**
   After the sync, every recorded mark lies strictly below what its table generates next; only a
   table at the end of the range generates nothing.
   */
  lemma NextIsAbove(env: Setting, s: Seqs, rows: seq<(string, int64)>, i: nat)
    requires i < |rows| && env.resolve(rows[i].0) in s.tables
    ensures var after := SyncAll(env, s, rows);
            var key := env.resolve(rows[i].0);
            && key in after.tables && after.tables[key] != map[]
            && forall m :: IsLast(after.tables[key], m) ==>
                 match NextAfter(AUTOINCREMENT, m, after.tables[key][m])
                 case Some(v) => v > rows[i].1
                 case None => m == INT64_MAX
  {
    SyncCovers(env, s, rows, i);
  }

  lemma CoveredIsFixed(env: Setting, s: Seqs, name: string, w: int64)
    requires Covered(env, s, name, w)
    ensures SyncOne(env, s, name, w) == s
  {
    var key := env.resolve(name);
    if key in s.tables && !Ahead(s.tables[key], w) {
      assert Written(s.tables[key], w) == s.tables[key];
      assert s.tables[key := s.tables[key]] == s.tables;
      assert env.hasMvStore ==> s.marks[key := FirstUnsafe(w)] == s.marks;
    }
  }

  lemma {:induction false} AllFixed(env: Setting, s: Seqs, rows: seq<(string, int64)>)
    requires forall i :: 0 <= i < |rows| ==> Covered(env, s, rows[i].0, rows[i].1)
    ensures SyncAll(env, s, rows) == s
    decreases |rows|
  {
    if rows != [] {
      CoveredIsFixed(env, s, rows[0].0, rows[0].1);
      AllFixed(env, s, rows[1..]);
    }
  }

  /** A second sync changes nothing. */
  lemma SecondSyncChangesNothing(env: Setting, s: Seqs, rows: seq<(string, int64)>)
    ensures SyncAll(env, SyncAll(env, s, rows), rows) == SyncAll(env, s, rows)
  {
    var after := SyncAll(env, s, rows);
    forall i | 0 <= i < |rows|
      ensures Covered(env, after, rows[i].0, rows[i].1)
    {
      SyncCovers(env, s, rows, i);
    }
    AllFixed(env, after, rows);
  }

  /** The sync only ever adds marks: rows elsewhere, and tables with no recorded mark, stay as they were. */
  lemma {:induction false} OthersUntouched(env: Setting, s: Seqs, rows: seq<(string, int64)>, key: string, k: int64)
    requires key in s.tables && forall i :: 0 <= i < |rows| ==> env.resolve(rows[i].0) != key || rows[i].1 != k
    ensures key in SyncAll(env, s, rows).tables
    ensures var t, u := s.tables[key], SyncAll(env, s, rows).tables[key];
            (k in t <==> k in u) && (k in t ==> u[k] == t[k])
    decreases |rows|
  {
    if rows != [] {
      OthersUntouched(env, SyncOne(env, s, rows[0].0, rows[0].1), rows[1..], key, k);
    }
  }

  /** A table strictly ahead of every mark recorded for it is left alone, and so is its watermark. */
  lemma {:induction false} AheadIsUntouched(env: Setting, s: Seqs, rows: seq<(string, int64)>, key: string)
    requires key in s.tables
    requires forall i :: 0 <= i < |rows| && env.resolve(rows[i].0) == key ==> exists k :: k in s.tables[key] && k > rows[i].1
    ensures var after := SyncAll(env, s, rows);
            && key in after.tables && after.tables[key] == s.tables[key]
            && (key in after.marks <==> key in s.marks) && (key in s.marks ==> after.marks[key] == s.marks[key])
    decreases |rows|
  {
    if rows != [] {
      AheadIsUntouched(env, SyncOne(env, s, rows[0].0, rows[0].1), rows[1..], key);
    }
  }

  /**
   Where a recorded mark is not behind its table, the table holds it as handed out under the
   AUTOINCREMENT descriptor, and the store's watermark lies one above it, or at it at the end of the range.
   */
  lemma MarkIsHandedOut(env: Setting, s: Seqs, rows: seq<(string, int64)>, i: nat)
    requires i < |rows| && env.resolve(rows[i].0) in s.tables
    ensures var (after, key, w) := (SyncAll(env, s, rows), env.resolve(rows[i].0), rows[i].1);
            && key in after.tables
            && ((forall k :: k in after.tables[key] ==> k <= w) ==>
                  && w in after.tables[key]
                  && after.tables[key][w] == Row(true, Sequence(1, 1, 1, 0x7FFF_FFFF_FFFF_FFFF, false))
                  && (env.hasMvStore ==> key in after.marks && (if w == 0x7FFF_FFFF_FFFF_FFFF then after.marks[key] == w else after.marks[key] == w + 1)))
  {
    SyncCovers(env, s, rows, i);
  }

  /** Without an MVCC store no watermark is touched. */
  lemma {:induction false} NoStoreNoMarks(env: Setting, s: Seqs, rows: seq<(string, int64)>)
    requires !env.hasMvStore
    ensures SyncAll(env, s, rows).marks == s.marks
    decreases |rows|
  {
    if rows != [] {
      NoStoreNoMarks(env, SyncOne(env, s, rows[0].0, rows[0].1), rows[1..]);
    }
  }

  /** A sequence within its bounds generates values within its bounds: one increment on, or wrapped to the far end. */
  lemma NextStaysInBounds(q: Sequence, m: int64, called: bool)
    requires q.min <= m <= q.max && q.inc != 0
    ensures match NextAfter(q, m, Row(called, q))
            case Some(v) =>
              && q.min <= v <= q.max
              && (!called ==> v == m)
              && (called && q.min <= m + q.inc <= q.max ==> v == m + q.inc)
              && (called && !(q.min <= m + q.inc <= q.max) ==> q.cycle && v == if q.inc > 0 then q.min else q.max)
            case None => called && !q.cycle && !(q.min <= m + q.inc <= q.max)
  {
  }
}
