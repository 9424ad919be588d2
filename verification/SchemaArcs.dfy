/**
 The connection's schemas as the code holds them: shared reference-counted cells, copied on write.
 Every operation is proved to act as the by-value one does.
 */
module SchemaArcs {
  import opened Common
  import opened Savepoints

  type Ref = nat

  /** A savepoint frame holds references, not copies. */
  datatype Frame = Frame(name: string, starts: bool, fk: int, main: Ref, temp: Option<Ref>, staged: map<nat, Ref>)

  /** The pager's own entry for a named savepoint. */
  datatype PagerSavepoint = PagerSavepoint(name: string, starts: bool, fk: int)

  /** A step of another holder: other connections, statements, the shared main schema. */
  datatype Noise = Clone(r: Ref) | Drop(r: Ref) | Mutate(r: Ref, f: Schema -> Schema)

  datatype ReleaseResult = NotFound | Released | Commits

  // ---------------------------------------------------------------- counting holders

  function Holders(m: map<nat, Ref>, r: Ref): set<nat> { set k | k in m && m[k] == r }

  function Held(m: map<nat, Ref>, r: Ref): nat { |Holders(m, r)| }

  function One(b: bool): nat { if b then 1 else 0 }

  function FrameHeld(f: Frame, r: Ref): nat { One(f.main == r) + One(f.temp == Some(r)) + Held(f.staged, r) }

  function FramesHeld(frames: seq<Frame>, r: Ref): nat
  {
    if frames == [] then 0 else FramesHeld(frames[..|frames| - 1], r) + FrameHeld(frames[|frames| - 1], r)
  }

  lemma HeldAtLeast(m: map<nat, Ref>, k: nat)
    requires k in m
    ensures Held(m, m[k]) >= 1
    ensures Held(m, m[k]) == 1 ==> forall j :: j in m && j != k ==> m[j] != m[k]
  {
    var s := Holders(m, m[k]);
    assert k in s && |s| == |s - {k}| + 1;
    if j :| j in m && j != k && m[j] == m[k] {
      assert j in s - {k};
    }
  }

  lemma NotHeld(m: map<nat, Ref>, r: Ref)
    requires Held(m, r) == 0
    ensures forall k :: k in m ==> m[k] != r
  {
    forall k | k in m
      ensures m[k] != r
    {
      HeldAtLeast(m, k);
    }
  }

  predicate Mentions(f: Frame, r: Ref)
  {
    f.main == r || f.temp == Some(r) || exists k :: k in f.staged && f.staged[k] == r
  }

  lemma {:induction false} NoFrameHolds(frames: seq<Frame>, r: Ref)
    requires FramesHeld(frames, r) == 0
    ensures forall i :: 0 <= i < |frames| ==> !Mentions(frames[i], r)
  {
    if frames != [] {
      NoFrameHolds(frames[..|frames| - 1], r);
      NotHeld(frames[|frames| - 1].staged, r);
    }
  }

  // ---------------------------------------------------------------- reading through the references

  type Heap = map<Ref, Schema>

  predicate AllIn(m: map<nat, Ref>, heap: Heap) { forall k :: k in m ==> m[k] in heap }

  predicate FrameIn(f: Frame, heap: Heap)
  {
    f.main in heap && (f.temp.Some? ==> f.temp.value in heap) && AllIn(f.staged, heap)
  }

  predicate FramesIn(frames: seq<Frame>, heap: Heap) { forall i :: 0 <= i < |frames| ==> FrameIn(frames[i], heap) }

  function Deref(m: map<nat, Ref>, heap: Heap): map<nat, Schema>
    requires AllIn(m, heap)
  {
    map k | k in m :: heap[m[k]]
  }

  function DerefTemp(temp: Option<Ref>, heap: Heap): Option<Schema>
    requires temp.Some? ==> temp.value in heap
  {
    if temp.Some? then Some(heap[temp.value]) else None
  }

  function DerefFrame(f: Frame, heap: Heap): Saved
    requires FrameIn(f, heap)
  {
    Saved(f.name, f.starts, f.fk, Schemas(heap[f.main], DerefTemp(f.temp, heap), Deref(f.staged, heap)))
  }

  function DerefFrames(frames: seq<Frame>, heap: Heap): (s: seq<Saved>)
    requires FramesIn(frames, heap)
    ensures |s| == |frames|
  {
    seq(|frames|, i requires 0 <= i < |frames| => DerefFrame(frames[i], heap))
  }

  /** `later` agrees with `heap` on every cell but `r`. */
  ghost predicate SameBut(heap: Heap, later: Heap, r: Ref)
  {
    forall q :: q in heap && q != r ==> q in later && later[q] == heap[q]
  }

  lemma FramesUnchanged(frames: seq<Frame>, heap: Heap, later: Heap, r: Ref)
    requires FramesIn(frames, heap) && SameBut(heap, later, r)
    requires forall i :: 0 <= i < |frames| ==> !Mentions(frames[i], r)
    ensures FramesIn(frames, later) && DerefFrames(frames, later) == DerefFrames(frames, heap)
  {
    forall i | 0 <= i < |frames|
      ensures FrameIn(frames[i], later) && DerefFrame(frames[i], later) == DerefFrame(frames[i], heap)
    {
      var f := frames[i];
      assert !Mentions(f, r);
      MapUnchanged(f.staged, heap, later, r);
    }
  }

  lemma MapUnchanged(m: map<nat, Ref>, heap: Heap, later: Heap, r: Ref)
    requires AllIn(m, heap) && SameBut(heap, later, r) && forall k :: k in m ==> m[k] != r
    ensures AllIn(m, later) && Deref(m, later) == Deref(m, heap)
  {
  }

  /** Every reference the connection's state is read through. */
  datatype Roots = Roots(schema: Ref, temp: Option<Ref>, staged: map<nat, Ref>, frames: seq<Frame>, shared: map<nat, Ref>)

  predicate RootsIn(x: Roots, heap: Heap)
  {
    && x.schema in heap && (x.temp.Some? ==> x.temp.value in heap) && AllIn(x.staged, heap) && AllIn(x.shared, heap)
    && FramesIn(x.frames, heap)
  }

  datatype Contents = Contents(cur: Schemas, saved: seq<Saved>, shared: map<nat, Schema>)

  function ReadAll(x: Roots, heap: Heap): Contents
    requires RootsIn(x, heap)
  {
    Contents(Schemas(heap[x.schema], DerefTemp(x.temp, heap), Deref(x.staged, heap)), DerefFrames(x.frames, heap), Deref(x.shared, heap))
  }

  /** How many of these references are to `r`. */
  function RootsHeld(x: Roots, r: Ref): nat
  {
    One(x.schema == r) + One(x.temp == Some(r)) + Held(x.staged, r) + FramesHeld(x.frames, r) + Held(x.shared, r)
  }

  /** `u` is a cell no one else reads: the only reference of its kind, or one that did not exist before. */
  ghost predicate Exclusive(x: Roots, heap: Heap, r: Ref, u: Ref)
  {
    if u == r then RootsHeld(x, r) == 1 else u !in heap
  }

  lemma FramesUnread(x: Roots, heap: Heap, later: Heap, u: Ref)
    requires RootsIn(x, heap) && SameBut(heap, later, u) && (FramesHeld(x.frames, u) == 0 || u !in heap)
    ensures FramesIn(x.frames, later) && DerefFrames(x.frames, later) == DerefFrames(x.frames, heap)
  {
    if u in heap {
      NoFrameHolds(x.frames, u);
    }
    FramesUnchanged(x.frames, heap, later, u);
  }

  lemma MapUnread(m: map<nat, Ref>, heap: Heap, later: Heap, u: Ref)
    requires AllIn(m, heap) && SameBut(heap, later, u) && (Held(m, u) == 0 || u !in heap)
    ensures AllIn(m, later) && Deref(m, later) == Deref(m, heap)
  {
    if u in heap {
      NotHeld(m, u);
    }
    MapUnchanged(m, heap, later, u);
  }

  /** Writing through the main reference changes the main schema and nothing else. */
  lemma MainWritten(x: Roots, heap: Heap, later: Heap, u: Ref)
    requires RootsIn(x, heap) && u in later && SameBut(heap, later, u) && Exclusive(x, heap, x.schema, u)
    ensures RootsIn(x.(schema := u), later)
    ensures ReadAll(x, heap).cur.main == heap[x.schema]
    ensures var before := ReadAll(x, heap);
            ReadAll(x.(schema := u), later) == before.(cur := before.cur.(main := later[u]))
  {
    hide FramesHeld, Held;
    FramesUnread(x, heap, later, u);
    MapUnread(x.staged, heap, later, u);
    MapUnread(x.shared, heap, later, u);
  }

  /** Writing through the temp reference changes the temp schema and nothing else. */
  lemma TempWritten(x: Roots, heap: Heap, later: Heap, u: Ref)
    requires RootsIn(x, heap) && x.temp.Some? && u in later && SameBut(heap, later, u) && Exclusive(x, heap, x.temp.value, u)
    ensures RootsIn(x.(temp := Some(u)), later)
    ensures ReadAll(x, heap).cur.temp == Some(heap[x.temp.value])
    ensures var before := ReadAll(x, heap);
            ReadAll(x.(temp := Some(u)), later) == before.(cur := before.cur.(temp := Some(later[u])))
  {
    hide FramesHeld, Held;
    FramesUnread(x, heap, later, u);
    MapUnread(x.staged, heap, later, u);
    MapUnread(x.shared, heap, later, u);
  }

  /** Writing through one staged reference changes that staged schema and nothing else. */
  lemma StagedWritten(x: Roots, heap: Heap, later: Heap, id: nat, u: Ref)
    requires RootsIn(x, heap) && id in x.staged && u in later && SameBut(heap, later, u) && Exclusive(x, heap, x.staged[id], u)
    ensures RootsIn(x.(staged := x.staged[id := u]), later)
    ensures id in ReadAll(x, heap).cur.staged && ReadAll(x, heap).cur.staged[id] == heap[x.staged[id]]
    ensures var before := ReadAll(x, heap);
            ReadAll(x.(staged := x.staged[id := u]), later) == before.(cur := before.cur.(staged := before.cur.staged[id := later[u]]))
  {
    hide FramesHeld, Held;
    HeldAtLeast(x.staged, id);
    FramesUnread(x, heap, later, u);
    MapUnread(x.shared, heap, later, u);
    MapWritten(x.staged, heap, later, id, u);
  }

  lemma MapWritten(m: map<nat, Ref>, heap: Heap, later: Heap, id: nat, u: Ref)
    requires AllIn(m, heap) && SameBut(heap, later, u) && u in later && forall k :: k in m && k != id ==> m[k] != u
    ensures AllIn(m[id := u], later) && Deref(m[id := u], later) == Deref(m, heap)[id := later[u]]
  {
    MapUnchanged(m - {id}, heap, later, u);
    assert forall k :: k in m && k != id ==> k in m - {id} && Deref(m - {id}, heap)[k] == Deref(m - {id}, later)[k];
  }

  /** A cell nobody here refers to can be written freely. */
  lemma Unwritten(x: Roots, heap: Heap, later: Heap, u: Ref)
    requires RootsIn(x, heap) && SameBut(heap, later, u) && (RootsHeld(x, u) == 0 || u !in heap)
    ensures RootsIn(x, later) && ReadAll(x, later) == ReadAll(x, heap)
  {
    hide FramesHeld, Held;
    FramesUnread(x, heap, later, u);
    MapUnread(x.staged, heap, later, u);
    MapUnread(x.shared, heap, later, u);
  }

  /** The first DDL on an attached database stages a clone of its published reference. */
  lemma FirstStaged(x: Roots, heap: Heap, id: nat)
    requires RootsIn(x, heap) && id in x.shared
    ensures RootsIn(x.(staged := x.staged[id := x.shared[id]]), heap)
    ensures var before := ReadAll(x, heap);
            id in before.shared
            && ReadAll(x.(staged := x.staged[id := x.shared[id]]), heap)
               == before.(cur := before.cur.(staged := before.cur.staged[id := before.shared[id]]))
  {
    assert Deref(x.staged[id := x.shared[id]], heap) == Deref(x.staged, heap)[id := heap[x.shared[id]]];
  }

  lemma SameKeys(x: Roots, heap: Heap)
    requires RootsIn(x, heap)
    ensures ReadAll(x, heap).cur.staged.Keys == x.staged.Keys && ReadAll(x, heap).shared.Keys == x.shared.Keys
    ensures ReadAll(x, heap).cur.temp.Some? <==> x.temp.Some?
  {
  }

  /** A frame of clones reads as a copy of the current schemas. */
  lemma FramePushed(x: Roots, heap: Heap, name: string, starts: bool, fk: int)
    requires RootsIn(x, heap)
    ensures var pushed := x.(frames := x.frames + [Frame(name, starts, fk, x.schema, x.temp, x.staged)]);
            var before := ReadAll(x, heap);
            RootsIn(pushed, heap) && ReadAll(pushed, heap) == before.(saved := before.saved + [Saved(name, starts, fk, before.cur)])
  {
    var frame := Frame(name, starts, fk, x.schema, x.temp, x.staged);
    assert DerefFrames(x.frames + [frame], heap) == DerefFrames(x.frames, heap) + [DerefFrame(frame, heap)];
  }

  lemma FramesCut(x: Roots, heap: Heap, n: nat)
    requires RootsIn(x, heap) && n <= |x.frames|
    ensures var cut := x.(frames := x.frames[..n]);
            var before := ReadAll(x, heap);
            && |before.saved| == |x.frames| && RootsIn(cut, heap)
            && ReadAll(cut, heap) == before.(saved := before.saved[..n])
  {
    assert DerefFrames(x.frames[..n], heap) == DerefFrames(x.frames, heap)[..n];
  }

  /** Installing a frame's references brings back the schemas it was made from. */
  lemma Reinstated(x: Roots, heap: Heap, i: nat, cell: Ref, empty: Schema)
    requires RootsIn(x, heap) && i < |x.frames|
    requires x.temp.Some? && x.frames[i].temp.None? ==> cell in heap && heap[cell] == empty
    ensures |ReadAll(x, heap).saved| == |x.frames|
    ensures var f := x.frames[i];
            var temp := if x.temp.None? then None else if f.temp.None? then Some(cell) else f.temp;
            var back := x.(schema := f.main, temp := temp, staged := f.staged);
            var before := ReadAll(x, heap);
            && RootsIn(back, heap)
            && ReadAll(back, heap) == before.(cur := Restored(before.cur, before.saved[i].schemas, empty))
  {
    assert FrameIn(x.frames[i], heap);
  }

  /** `shared` once the staged references named in `done` have moved over. */
  function Moved(shared: map<nat, Ref>, staged: map<nat, Ref>, done: set<nat>): map<nat, Ref>
    requires done <= staged.Keys
  {
    map id | id in shared :: if id in done then staged[id] else shared[id]
  }

  /** The staged references not in `left` have moved over. */
  ghost predicate Moving(shared: map<nat, Ref>, staged: map<nat, Ref>, now: map<nat, Ref>, left: map<nat, Ref>)
  {
    && left.Keys <= staged.Keys && (forall id :: id in left ==> left[id] == staged[id])
    && now == Moved(shared, staged, staged.Keys - left.Keys)
  }

  lemma MovingStart(shared: map<nat, Ref>, staged: map<nat, Ref>)
    ensures Moving(shared, staged, shared, staged)
  {
  }

  lemma MovingStep(shared: map<nat, Ref>, staged: map<nat, Ref>, now: map<nat, Ref>, left: map<nat, Ref>, id: nat)
    requires Moving(shared, staged, now, left) && id in left
    ensures Moving(shared, staged, if id in now then now[id := left[id]] else now, left - {id})
  {
    var next := if id in now then now[id := left[id]] else now;
    var moved := Moved(shared, staged, staged.Keys - (left - {id}).Keys);
    assert next.Keys == moved.Keys;
    assert forall k :: k in moved ==> next[k] == moved[k];
  }

  lemma MovingEnd(shared: map<nat, Ref>, staged: map<nat, Ref>, now: map<nat, Ref>)
    requires Moving(shared, staged, now, map[])
    ensures now == Moved(shared, staged, staged.Keys)
  {
    var none: map<nat, Ref> := map[];
    assert staged.Keys - none.Keys == staged.Keys;
  }

  lemma AllMoved(x: Roots, heap: Heap)
    requires RootsIn(x, heap)
    ensures var moved := x.(shared := Moved(x.shared, x.staged, x.staged.Keys), staged := map[]);
            var before := ReadAll(x, heap);
            && RootsIn(moved, heap)
            && ReadAll(moved, heap)
               == before.(cur := before.cur.(staged := map[]), shared := Published(before.shared, before.cur.staged))
  {
    var moved := Moved(x.shared, x.staged, x.staged.Keys);
    assert Deref(moved, heap) == Published(Deref(x.shared, heap), Deref(x.staged, heap));
    assert Deref(map[], heap) == map[];
  }

  lemma SharedSet(x: Roots, heap: Heap, id: nat, cell: Ref)
    requires RootsIn(x, heap) && cell in heap
    ensures var before := ReadAll(x, heap);
            var set1 := x.(shared := x.shared[id := cell]);
            RootsIn(set1, heap) && ReadAll(set1, heap) == before.(shared := before.shared[id := heap[cell]])
  {
    assert Deref(x.shared[id := cell], heap) == Deref(x.shared, heap)[id := heap[cell]];
  }

  /** Publishing before the transaction ends is publishing as it ends. */
  lemma EndedKeeps(s: State, fkEnabled: bool, shared: map<nat, Schema>)
    ensures Ended(s.(cur := s.cur.(staged := map[]), shared := shared), fkEnabled) == Ended(s, fkEnabled).(shared := shared)
  {
  }

  lemma RolledBack(x: Roots, heap: Heap, main: Ref, temp: Option<Ref>)
    requires RootsIn(x, heap) && main in heap && (temp.Some? ==> temp.value in heap)
    ensures var back := x.(schema := main, temp := temp, staged := map[]);
            var before := ReadAll(x, heap);
            && RootsIn(back, heap)
            && ReadAll(back, heap) == before.(cur := Schemas(heap[main], DerefTemp(temp, heap), map[]))
  {
    assert Deref(map[], heap) == map[];
  }

  class Connection {
    var heap: Heap
    var next: Ref
    var schema: Ref
    var temp: Option<Ref>
    var staged: map<nat, Ref>
    var namedSavepoints: seq<Frame>
    var pagerSavepoints: seq<PagerSavepoint>
    var autoCommit: bool
    var fk: int
    /** Published schemas of the attached databases. */
    var shared: map<nat, Ref>
    /** Everyone else's references: other connections, statements, the shared main schema. */
    var others: multiset<Ref>

    function AllRoots(): Roots
      reads this
    {
      Roots(schema, temp, staged, namedSavepoints, shared)
    }

    ghost predicate Valid()
      reads this
    {
      && RootsIn(AllRoots(), heap)
      && (forall r :: r in others ==> r in heap)
      && (forall r :: r in heap ==> r < next)
      && InStep(namedSavepoints, pagerSavepoints)
    }

    ghost function View(): State
      requires Valid()
      reads this
    {
      var c := ReadAll(AllRoots(), heap);
      State(c.cur, c.saved, autoCommit, fk, c.shared)
    }

    /** The reference count: one for every holder there is. */
    function StrongCount(r: Ref): nat
      reads this
    {
      RootsHeld(AllRoots(), r) + others[r]
    }

    constructor (main: Schema)
      ensures Valid() && View() == State(Schemas(main, None, map[]), [], true, 0, map[])
    {
      heap, next, schema, temp := map[0 := main], 1, 0, None;
      staged, shared, others := map[], map[], multiset{};
      namedSavepoints, pagerSavepoints, autoCommit, fk := [], [], true, 0;
    }

    /** A fresh cell. */
    method Allocate(s: Schema) returns (r: Ref)
      requires Valid()
      modifies this`heap, this`next
      ensures Valid() && View() == old(View())
      ensures r !in old(heap) && heap == old(heap)[r := s]
    {
      hide RootsIn, ReadAll;
      r := next;
      heap, next := heap[r := s], next + 1;
      Unwritten(AllRoots(), old(heap), heap, r);
    }

    /** Mutate in place when no one else holds the cell, otherwise clone it first. */
    method TryMakeMut(r: Ref, f: Schema -> Schema) returns (unique: Ref)
      requires Valid() && r in heap
      modifies this`heap, this`next
      ensures unique in heap && heap[unique] == f(old(heap)[r]) && SameBut(old(heap), heap, unique)
      ensures forall q :: q in heap ==> q < next
      ensures unique == r <==> old(StrongCount(r)) == 1
      ensures unique != r ==> unique !in old(heap)
    {
      hide RootsIn, ReadAll, RootsHeld;
      unique := r;
      if StrongCount(r) != 1 {
        unique := Allocate(heap[r]);
      }
      heap := heap[unique := f(heap[unique])];
    }

    /** DDL on the main database. */
    method WithSchemaMut(f: Schema -> Schema)
      requires Valid()
      modifies this`heap, this`next, this`schema
      ensures Valid() && View() == Apply(old(View()), Ddl(MainDb, f)).0
    {
      hide ReadAll, FramesIn, FramesHeld, Held, InStep;
      var unique := TryMakeMut(schema, f);
      MainWritten(AllRoots(), old(heap), heap, unique);
      schema := unique;
    }

    /** DDL on any database; the first on an attached one starts from its published schema. */
    method WithDatabaseSchemaMut(db: Db, f: Schema -> Schema)
      requires Valid() && Enabled(View(), Ddl(db, f))
      modifies this`heap, this`next, this`schema, this`temp, this`staged
      ensures Valid() && View() == Apply(old(View()), Ddl(db, f)).0
    {
      hide ReadAll, RootsIn, InStep;
      SameKeys(AllRoots(), heap);
      match db {
        case MainDb => WithSchemaMut(f);
        case TempDb => WithTempSchemaMut(f);
        case Attached(id) => WithAttachedSchemaMut(id, f);
      }
    }

    method WithTempSchemaMut(f: Schema -> Schema)
      requires Valid() && temp.Some?
      modifies this`heap, this`next, this`temp
      ensures Valid() && old(View()).cur.temp.Some? && View() == Apply(old(View()), Ddl(TempDb, f)).0
    {
      hide ReadAll, FramesIn, FramesHeld, Held, InStep;
      SameKeys(AllRoots(), heap);
      var unique := TryMakeMut(temp.value, f);
      TempWritten(AllRoots(), old(heap), heap, unique);
      temp := Some(unique);
    }

    method WithAttachedSchemaMut(id: nat, f: Schema -> Schema)
      requires Valid() && (id in staged || id in shared)
      modifies this`heap, this`next, this`staged
      ensures Valid() && View() == Apply(old(View()), Ddl(Attached(id), f)).0
    {
      hide ReadAll, FramesIn, RootsIn, AllIn, InStep;
      StageSchema(id);
      MutateStaged(id, f);
    }

    /** The connection-local entry for an attached database, made from the published schema if missing. */
    method StageSchema(id: nat)
      requires Valid() && (id in staged || id in shared)
      modifies this`staged
      ensures Valid() && id in staged && id in View().cur.staged
      ensures Enabled(old(View()), Ddl(Attached(id), s => s))
      ensures View() == Apply(old(View()), Ddl(Attached(id), s => s)).0
    {
      hide ReadAll, FramesIn, RootsIn, AllIn, InStep;
      SameKeys(AllRoots(), heap);
      if id !in staged {
        FirstStaged(AllRoots(), heap, id);
        staged := staged[id := shared[id]];
      } else {
        assert View().cur.staged[id := View().cur.staged[id]] == View().cur.staged;
      }
    }

    method MutateStaged(id: nat, f: Schema -> Schema)
      requires Valid() && id in staged
      modifies this`heap, this`next, this`staged
      ensures Valid() && id in old(View()).cur.staged
      ensures View() == old(View()).(cur := old(View()).cur.(staged := old(View()).cur.staged[id := f(old(View()).cur.staged[id])]))
    {
      hide ReadAll, FramesIn, FramesHeld, Held, InStep;
      var unique := TryMakeMut(staged[id], f);
      HeldAtLeast(staged, id);
      StagedWritten(AllRoots(), old(heap), heap, id, unique);
      staged := staged[id := unique];
    }

    /** SAVEPOINT: the pager opens its own, then the frame clones every reference. */
    method SavepointBegin(name: string)
      requires Valid()
      modifies this`namedSavepoints, this`pagerSavepoints, this`autoCommit
      ensures Valid() && View() == Apply(old(View()), Begin(name)).0
    {
      hide ReadAll, FramesIn, AllIn;
      FramePushed(AllRoots(), heap, name, autoCommit, fk);
      var starts := autoCommit;
      pagerSavepoints := pagerSavepoints + [PagerSavepoint(name, starts, fk)];
      var frame := Frame(name, starts, fk, schema, temp, staged);
      namedSavepoints := namedSavepoints + [frame];
      if starts {
        autoCommit := false;
      }
    }

    /** The connection's half of RELEASE. */
    method ReleaseNamedSavepointFrame(name: string) returns (r: ReleaseResult)
      modifies this`namedSavepoints
      ensures match Innermost(FrameNames(old(namedSavepoints)), name)
              case None => r == NotFound && namedSavepoints == old(namedSavepoints)
              case Some(i) =>
                if old(namedSavepoints)[i].starts && i == 0 then r == Commits && namedSavepoints == old(namedSavepoints)
                else r == Released && namedSavepoints == old(namedSavepoints)[..i]
    {
      var target := Innermost(FrameNames(namedSavepoints), name);
      if target.None? {
        return NotFound;
      }
      if namedSavepoints[target.value].starts && target.value == 0 {
        return Commits;
      }
      namedSavepoints := namedSavepoints[..target.value];
      r := Released;
    }

    /** The pager's half, whose answer decides. */
    method ReleasePagerSavepoint(name: string) returns (r: ReleaseResult)
      modifies this`pagerSavepoints
      ensures match Innermost(PagerNames(old(pagerSavepoints)), name)
              case None => r == NotFound && pagerSavepoints == old(pagerSavepoints)
              case Some(i) =>
                if old(pagerSavepoints)[i].starts && i == 0 then r == Commits && pagerSavepoints == old(pagerSavepoints)
                else r == Released && pagerSavepoints == old(pagerSavepoints)[..i]
    {
      var target := Innermost(PagerNames(pagerSavepoints), name);
      if target.None? {
        return NotFound;
      }
      r := if pagerSavepoints[target.value].starts && target.value == 0 then Commits else Released;
      if r == Commits {
        return r;
      }
      pagerSavepoints := pagerSavepoints[..target.value];
    }

    /** RELEASE: the pager's answer is acted on and the connection's own is dropped. */
    method SavepointRelease(name: string, fkEnabled: bool) returns (r: Outcome)
      requires Valid()
      modifies this`shared, this`staged, this`namedSavepoints, this`pagerSavepoints, this`autoCommit, this`fk
      ensures Valid() && (View(), r) == Apply(old(View()), Release(name, fkEnabled))
    {
      hide ReadAll, FramesIn, AllIn, Innermost;
      SameNames(AllRoots(), heap, pagerSavepoints);
      var released := ReleasePagerSavepoint(name);
      if released == NotFound {
        return NoSuchSavepoint;
      }
      var _ := ReleaseNamedSavepointFrame(name);
      if released == Commits {
        r := Commit(fkEnabled);
      } else {
        FramesCut(old(AllRoots()), heap, |namedSavepoints|);
        r := Done;
      }
    }

    /** BEGIN, refused inside a transaction. */
    method BeginTransaction() returns (r: Outcome)
      requires Valid()
      modifies this`autoCommit
      ensures Valid() && (View(), r) == Apply(old(View()), Savepoints.BeginTransaction)
    {
      hide ReadAll, RootsIn, InStep;
      if !autoCommit {
        return NestedTransaction;
      }
      autoCommit := false;
      r := Done;
    }

    /** COMMIT, refused outside a transaction. */
    method CommitTransaction(fkEnabled: bool) returns (r: Outcome)
      requires Valid()
      modifies this`shared, this`staged, this`namedSavepoints, this`pagerSavepoints, this`autoCommit, this`fk
      ensures Valid() && (View(), r) == Apply(old(View()), Savepoints.CommitTransaction(fkEnabled))
    {
      hide ReadAll, RootsIn, InStep, Committed;
      if autoCommit {
        return NoTransaction;
      }
      r := Commit(fkEnabled);
    }

    /** The end of a committing transaction: refused while violations are outstanding; otherwise staged schemas are published. */
    method Commit(fkEnabled: bool) returns (r: Outcome)
      requires Valid()
      modifies this`shared, this`staged, this`namedSavepoints, this`pagerSavepoints, this`autoCommit, this`fk
      ensures Valid() && (View(), r) == Committed(old(View()), fkEnabled)
    {
      hide ReadAll, RootsIn, InStep, Ended, Published;
      EndedKeeps(View(), fkEnabled, Published(View().shared, View().cur.staged));
      if fkEnabled && fk > 0 {
        return ForeignKeyViolation;
      }
      PublishAll();
      EndTransaction(fkEnabled);
      r := Done;
    }

    /** Every staged reference moves to its database, or is dropped with a database that is gone. */
    method PublishAll()
      requires Valid()
      modifies this`shared, this`staged
      ensures Valid() && staged == map[]
      ensures View() == old(View()).(cur := old(View()).cur.(staged := map[]),
                                     shared := Published(old(View()).shared, old(View()).cur.staged))
    {
      hide ReadAll, RootsIn, InStep, Published;
      AllMoved(AllRoots(), heap);
      MoveAll();
    }

    method MoveAll()
      modifies this`shared, this`staged
      ensures staged == map[] && shared == Moved(old(shared), old(staged), old(staged).Keys)
    {
      hide Moving;
      MovingStart(shared, staged);
      while staged != map[]
        invariant Moving(old(shared), old(staged), shared, staged)
        decreases |staged|
      {
        var id :| id in staged;
        MovingStep(old(shared), old(staged), shared, staged, id);
        PublishDatabaseSchema(id);
      }
      MovingEnd(old(shared), old(staged), shared);
    }

    method PublishDatabaseSchema(id: nat)
      modifies this`shared, this`staged
      ensures staged == old(staged) - {id}
      ensures shared == if id in old(staged) && id in old(shared) then old(shared)[id := old(staged)[id]] else old(shared)
    {
      if id in staged {
        var local := staged[id];
        staged := staged - {id};
        if id in shared {
          shared := shared[id := local];
        }
      }
    }

    /** What a successful commit or rollback does to the savepoint state. */
    method EndTransaction(fkEnabled: bool)
      requires Valid() && staged == map[]
      modifies this`namedSavepoints, this`pagerSavepoints, this`autoCommit, this`fk
      ensures Valid() && View() == Ended(old(View()), fkEnabled)
    {
      hide ReadAll, FramesIn, AllIn;
      SameKeys(AllRoots(), heap);
      FramesCut(AllRoots(), heap, 0);
      autoCommit := true;
      pagerSavepoints := [];
      if fkEnabled {
        fk := 0;
      }
      namedSavepoints := [];
    }

    /** ROLLBACK: main and temp go back to committed references, and staged ones are dropped. */
    method Rollback(main: Ref, committed: Option<Ref>, fkEnabled: bool) returns (r: Outcome)
      requires Valid() && main in heap && (committed.Some? ==> committed.value in heap) && (temp.Some? <==> committed.Some?)
      modifies this`schema, this`temp, this`staged, this`namedSavepoints, this`pagerSavepoints, this`autoCommit, this`fk
      ensures Valid()
      ensures Enabled(old(View()), RollbackTransaction(heap[main], DerefTemp(committed, heap), fkEnabled))
      ensures (View(), r) == Apply(old(View()), RollbackTransaction(heap[main], DerefTemp(committed, heap), fkEnabled))
    {
      hide ReadAll, RootsIn, InStep;
      SameKeys(AllRoots(), heap);
      if autoCommit {
        return NoTransaction;
      }
      InstallCommitted(main, committed);
      EndTransaction(fkEnabled);
      r := Done;
    }

    method InstallCommitted(main: Ref, committed: Option<Ref>)
      requires Valid() && main in heap && (committed.Some? ==> committed.value in heap)
      modifies this`schema, this`temp, this`staged
      ensures Valid() && staged == map[]
      ensures View() == old(View()).(cur := Schemas(heap[main], DerefTemp(committed, heap), map[]))
    {
      hide ReadAll, RootsIn, InStep;
      RolledBack(AllRoots(), heap, main, committed);
      schema, temp, staged := main, committed, map[];
    }

    /** The connection's half of ROLLBACK TO: clones of the frame's references, and the frames above it gone. */
    method RollbackNamedSavepointFrame(name: string) returns (info: Option<Frame>)
      modifies this`namedSavepoints
      ensures match Innermost(FrameNames(old(namedSavepoints)), name)
              case None => info == None && namedSavepoints == old(namedSavepoints)
              case Some(i) => info == Some(old(namedSavepoints)[i]) && namedSavepoints == old(namedSavepoints)[..i + 1]
    {
      var target := Innermost(FrameNames(namedSavepoints), name);
      if target.None? {
        return None;
      }
      info := Some(namedSavepoints[target.value]);
      namedSavepoints := namedSavepoints[..target.value + 1];
    }

    method RollbackPagerSavepoint(name: string) returns (violations: Option<int>)
      modifies this`pagerSavepoints
      ensures match Innermost(PagerNames(old(pagerSavepoints)), name)
              case None => violations == None && pagerSavepoints == old(pagerSavepoints)
              case Some(i) => violations == Some(old(pagerSavepoints)[i].fk) && pagerSavepoints == old(pagerSavepoints)[..i + 1]
    {
      var target := Innermost(PagerNames(pagerSavepoints), name);
      if target.None? {
        return None;
      }
      var entry := pagerSavepoints[target.value];
      pagerSavepoints := pagerSavepoints[..target.value] + [entry];
      violations := Some(entry.fk);
    }

    /** Both stacks come down to the innermost savepoint of that name, and its violation count comes back. */
    method RollbackStacks(name: string) returns (info: Option<Frame>)
      requires Valid()
      modifies this`namedSavepoints, this`pagerSavepoints, this`fk
      ensures Valid()
      ensures match Innermost(Names(old(View()).saved), name)
              case None => info == None && View() == old(View())
              case Some(i) =>
                && |namedSavepoints| == i + 1 && info == Some(namedSavepoints[i])
                && View() == old(View()).(saved := old(View()).saved[..i + 1], fk := old(View()).saved[i].fk)
    {
      hide ReadAll, RootsIn, Innermost;
      SameNames(AllRoots(), heap, pagerSavepoints);
      var violations := RollbackPagerSavepoint(name);
      if violations.None? {
        return None;
      }
      info := RollbackNamedSavepointFrame(name);
      fk := violations.value;
      FramesCut(old(AllRoots()), heap, |namedSavepoints|);
    }

    /** ROLLBACK TO: every schema reference goes back to the frame's, without reading the database. */
    method SavepointRollbackTo(name: string, empty: Schema) returns (r: Outcome)
      requires Valid()
      modifies this`heap, this`next, this`schema, this`temp, this`staged, this`namedSavepoints, this`pagerSavepoints, this`fk
      ensures Valid() && (View(), r) == Apply(old(View()), RollbackTo(name, empty))
    {
      hide ReadAll, RootsIn, InStep, Innermost, Restored;
      var info := RollbackStacks(name);
      if info.None? {
        return NoSuchSavepoint;
      }
      RestoreSchemas(info.value, empty);
      r := Done;
    }

    /** Install the references of the frame ROLLBACK TO stopped at. */
    method RestoreSchemas(info: Frame, empty: Schema)
      requires Valid() && namedSavepoints != [] && namedSavepoints[|namedSavepoints| - 1] == info
      modifies this`heap, this`next, this`schema, this`temp, this`staged
      ensures Valid() && |old(View()).saved| == |namedSavepoints|
      ensures View() == old(View()).(cur := Restored(old(View()).cur, old(View()).saved[|namedSavepoints| - 1].schemas, empty))
    {
      hide ReadAll, RootsIn, InStep, Restored;
      var cell := schema;
      if temp.Some? && info.temp.None? {
        cell := Allocate(empty);
      }
      Reinstated(AllRoots(), heap, |namedSavepoints| - 1, cell, empty);
      schema := info.main;
      if temp.Some? {
        temp := if info.temp.Some? then info.temp else Some(cell);
      }
      staged := info.staged;
    }

    // -------------------------------------------------------------- the rest of the connection, and everyone else

    /** The temp database is initialised on first use. */
    method InitTempDatabase(empty: Schema)
      requires Valid() && temp.None?
      modifies this`heap, this`next, this`temp
      ensures Valid() && View() == Apply(old(View()), InitTemp(empty)).0
    {
      hide FramesIn, DerefFrames, AllIn, Deref, InStep;
      var cell := Allocate(empty);
      temp := Some(cell);
    }

    method ResetTempDatabase()
      requires Valid() && autoCommit
      modifies this`temp
      ensures Valid() && View() == Apply(old(View()), ResetTemp).0
    {
      hide FramesIn, DerefFrames, AllIn, Deref, InStep;
      temp := None;
    }

    /** Another connection publishes an attached database's schema. */
    method PublishSchema(id: nat, s: Schema)
      requires Valid()
      modifies this`heap, this`next, this`shared
      ensures Valid() && View() == Apply(old(View()), Publish(id, s)).0
    {
      hide ReadAll, RootsIn, InStep;
      var cell := Allocate(s);
      SharedSet(AllRoots(), heap, id, cell);
      shared := shared[id := cell];
    }

    /** Someone else clones a reference that someone holds. */
    method OthersClone(r: Ref)
      requires Valid() && r in heap && StrongCount(r) > 0
      modifies this`others
      ensures Valid() && View() == old(View()) && StrongCount(r) == old(StrongCount(r)) + 1
    {
      hide ReadAll, RootsIn, RootsHeld, InStep;
      others := others + multiset{r};
    }

    /** Someone else drops a reference of theirs. */
    method OthersDrop(r: Ref)
      requires Valid() && r in others
      modifies this`others
      ensures Valid() && View() == old(View()) && StrongCount(r) == old(StrongCount(r)) - 1
    {
      hide ReadAll, RootsIn, RootsHeld, InStep;
      others := others - multiset{r};
    }

    /** What everyone else may do between two steps of this connection. */
    method Interfere(noise: Noise)
      requires Valid()
      modifies this`heap, this`next, this`others
      ensures Valid() && View() == old(View())
    {
      match noise {
        case Clone(r) =>
          if r in heap && StrongCount(r) > 0 {
            OthersClone(r);
          }
        case Drop(r) =>
          if r in others {
            OthersDrop(r);
          }
        case Mutate(r, f) =>
          if r in others {
            var _ := OthersMutate(r, f);
          }
      }
    }

    /** Someone else runs the same copy-on-write path on a reference of theirs. */
    method OthersMutate(r: Ref, f: Schema -> Schema) returns (unique: Ref)
      requires Valid() && r in others
      modifies this`heap, this`next, this`others
      ensures Valid() && View() == old(View()) && unique in others && heap[unique] == f(old(heap)[r])
    {
      hide ReadAll, FramesIn, FramesHeld, Held, InStep;
      unique := TryMakeMut(r, f);
      Unwritten(AllRoots(), old(heap), heap, unique);
      others := others - multiset{r} + multiset{unique};
    }

    /** Any step, by the operation that carries it out. */
    method Perform(step: Step) returns (r: Outcome)
      requires Valid() && Enabled(View(), step)
      modifies this
      ensures Valid() && (View(), r) == Apply(old(View()), step)
    {
      r := Done;
      hide ReadAll, RootsIn, InStep, Innermost, AfterDdl, Committed, Restored;
      SameKeys(AllRoots(), heap);
      match step {
        case Ddl(db, f) => WithDatabaseSchemaMut(db, f);
        case InitTemp(empty) => InitTempDatabase(empty);
        case ResetTemp => ResetTempDatabase();
        case Begin(name) => SavepointBegin(name);
        case Release(name, fkEnabled) => r := SavepointRelease(name, fkEnabled);
        case RollbackTo(name, empty) => r := SavepointRollbackTo(name, empty);
        case BeginTransaction => r := BeginTransaction();
        case CommitTransaction(fkEnabled) => r := CommitTransaction(fkEnabled);
        case RollbackTransaction(main, committed, fkEnabled) =>
          var m := Allocate(main);
          var t := None;
          if committed.Some? {
            var cell := Allocate(committed.value);
            t := Some(cell);
          }
          r := Rollback(m, t, fkEnabled);
        case Violate(violations) => fk := violations;
        case Publish(id, schema) => PublishSchema(id, schema);
      }
    }
  }

  /**
   Whole runs on references, with others cloning, dropping and writing through references in
   between, are runs by value: what is proved of those holds of the connection.
   */
  method Drive(c: Connection, steps: seq<Step>, noise: seq<seq<Noise>>, ghost states: seq<State>)
    returns (outcomes: seq<Outcome>)
    requires c.Valid() && Run(states, steps) && states[0] == c.View() && |noise| == |steps|
    modifies c
    ensures c.Valid() && c.View() == states[|steps|]
    ensures |outcomes| == |steps| && forall n :: 0 <= n < |steps| ==> outcomes[n] == Apply(states[n], steps[n]).1
  {
    hide Apply;
    outcomes := [];
    for n := 0 to |steps|
      invariant c.Valid() && c.View() == states[n]
      invariant |outcomes| == n && forall k :: 0 <= k < n ==> outcomes[k] == Apply(states[k], steps[k]).1
    {
      for i := 0 to |noise[n]|
        invariant c.Valid() && c.View() == states[n]
      {
        c.Interfere(noise[n][i]);
      }
      var outcome := c.Perform(steps[n]);
      outcomes := outcomes + [outcome];
    }
  }

  function FrameNames(frames: seq<Frame>): seq<string>
  {
    seq(|frames|, i requires 0 <= i < |frames| => frames[i].name)
  }

  function PagerNames(pager: seq<PagerSavepoint>): seq<string>
  {
    seq(|pager|, i requires 0 <= i < |pager| => pager[i].name)
  }

  lemma SameNames(x: Roots, heap: Heap, pager: seq<PagerSavepoint>)
    requires RootsIn(x, heap) && InStep(x.frames, pager)
    ensures FrameNames(x.frames) == PagerNames(pager) == Names(ReadAll(x, heap).saved)
    ensures |ReadAll(x, heap).saved| == |x.frames|
    ensures forall i :: 0 <= i < |x.frames| ==>
              var saved := ReadAll(x, heap).saved[i]; saved.starts == x.frames[i].starts && saved.fk == x.frames[i].fk
  {
  }

  /** The pager's stack and the connection's carry the same savepoints. */
  predicate InStep(frames: seq<Frame>, pager: seq<PagerSavepoint>)
  {
    |frames| == |pager| && forall i :: 0 <= i < |frames| ==> pager[i] == PagerSavepoint(frames[i].name, frames[i].starts, frames[i].fk)
  }
}
