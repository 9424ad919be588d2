/**
 Page pulls: the server collapses a range of WAL frames to the newest version of each
 selected page, and a replica that applies the answers follows the WAL.
 */
module PagePull {
  import opened Common
  import opened Decimal

  type PageData = seq<byte>

  /** Frame numbers and page numbers start at 1; page ids on the wire start at 0. */
  datatype WalFrame = WalFrame(pageNo: nat, data: PageData)
  {
    function Id(): int { pageNo - 1 }
  }

  type Wal = w: seq<WalFrame> | forall i :: 0 <= i < |w| ==> w[i].pageNo >= 1

  type Selector = Option<set<int>>

  type Update = (int, PageData)

  predicate Selected(sel: Selector, id: int)
  {
    sel.None? || id in sel.value
  }

  // ---------------------------------------------------------------- the server's answer

  /** Index `i` holds the newest frame, among indices below `hi`, for its page. */
  predicate IsNewest(wal: Wal, i: nat, hi: nat)
    requires i < hi <= |wal|
  {
    forall k :: i < k < hi ==> wal[k].pageNo != wal[i].pageNo
  }

  /** The newest version, within frames `lo+1..=hi`, of every selected page, oldest frame first. */
  function Collapse(wal: Wal, lo: nat, hi: nat, sel: Selector): seq<Update>
    requires lo <= hi <= |wal|
    decreases hi - lo
  {
    if lo == hi then []
    else
      var f := wal[lo];
      (if Selected(sel, f.Id()) && IsNewest(wal, lo, hi) then [(f.Id(), f.data)] else [])
      + Collapse(wal, lo + 1, hi, sel)
  }

  /** The page numbers the loop has recorded after visiting frames `lo+1..=hi`. */
  function Seen(wal: Wal, lo: nat, hi: nat, sel: Selector): set<nat>
    requires lo <= hi <= |wal|
  {
    set k | lo <= k < hi && Selected(sel, wal[k].Id()) :: wal[k].pageNo
  }

  function Reversed<T>(s: seq<T>): seq<T>
  {
    if s == [] then [] else Reversed(s[1..]) + [s[0]]
  }

  datatype Answer = Answer(serverRevision: nat, pages: seq<Update>)

  /** A revision that does not parse falls back to the current maximum (server) or to zero (client). */
  function ServerRevision(s: string, maxFrame: nat): nat
  {
    if s == "" || ParseU64(s).None? then maxFrame else ParseU64(s).value
  }

  function ClientRevision(s: string): nat
  {
    if s == "" || ParseU64(s).None? then 0 else ParseU64(s).value
  }

  /** The answer to one request; asking for frames past the end of the WAL fails. */
  function PageAnswer(wal: Wal, client: string, server: string, sel: Selector): Option<Answer>
  {
    var hi, lo := ServerRevision(server, |wal|), ClientRevision(client);
    if hi <= lo then Some(Answer(hi, []))
    else if hi > |wal| then None
    else Some(Answer(hi, Collapse(wal, lo, hi, sel)))
  }

  /** The server's loop: newest frame first, skipping pages already seen or not selected. */
  method HandlePagePull(wal: Wal, client: string, server: string, sel: Selector) returns (r: Option<Answer>)
    ensures r == PageAnswer(wal, client, server, sel)
  {
    hide ParseU64, IsNewest, Seen;
    var serverRevision := ServerRevision(server, |wal|);
    var clientRevision := ClientRevision(client);
    var seen: set<nat> := {};
    var toSend: seq<Update> := [];
    NothingSeen(wal, serverRevision, sel);
    if serverRevision > clientRevision {
      var frameNo := serverRevision;
      if frameNo > |wal| {
        return None; // reading the first frame of the reversed range fails
      }
      while frameNo > clientRevision
        invariant clientRevision <= frameNo <= serverRevision <= |wal|
        invariant seen == Seen(wal, frameNo, serverRevision, sel)
        invariant Reversed(toSend) == Collapse(wal, frameNo, serverRevision, sel)
      {
        var frame := wal[frameNo - 1];
        SeenMeansNewer(wal, frameNo - 1, serverRevision, sel);
        if frame.pageNo !in seen && Selected(sel, frame.Id()) {
          seen := seen + {frame.pageNo};
          ReversedSnoc(toSend, (frame.Id(), frame.data));
          toSend := toSend + [(frame.Id(), frame.data)];
        }
        frameNo := frameNo - 1;
      }
    }
    r := Some(Answer(serverRevision, Reversed(toSend)));
  }

  lemma NothingSeen(wal: Wal, n: nat, sel: Selector)
    ensures n <= |wal| ==> Seen(wal, n, n, sel) == {}
  {
  }

  lemma SeenMeansNewer(wal: Wal, i: nat, hi: nat, sel: Selector)
    requires i < hi <= |wal|
    ensures Selected(sel, wal[i].Id()) ==> (wal[i].pageNo in Seen(wal, i + 1, hi, sel) <==> !IsNewest(wal, i, hi))
    ensures Seen(wal, i, hi, sel) == Seen(wal, i + 1, hi, sel) + if Selected(sel, wal[i].Id()) then {wal[i].pageNo} else {}
  {
    var later := Seen(wal, i + 1, hi, sel);
    forall p | p in Seen(wal, i, hi, sel)
      ensures p in later || (Selected(sel, wal[i].Id()) && p == wal[i].pageNo)
    {
      var k :| i <= k < hi && Selected(sel, wal[k].Id()) && p == wal[k].pageNo;
      assert k == i || p in later;
    }
  }

  lemma {:induction false} ReversedSnoc<T>(s: seq<T>, x: T)
    ensures Reversed(s + [x]) == [x] + Reversed(s)
  {
    if s == [] {
      assert (s + [x])[1..] == [];
    } else {
      ReversedSnoc(s[1..], x);
      assert (s + [x])[1..] == s[1..] + [x];
    }
  }

  // ---------------------------------------------------------------- what an answer contains

  ghost predicate Touches(wal: Wal, lo: nat, hi: nat, id: int)
    requires hi <= |wal|
  {
    exists k :: lo <= k < hi && wal[k].Id() == id
  }

  /** `u` is the newest version of a selected page within the range. */
  ghost predicate NewestUpdate(wal: Wal, lo: nat, hi: nat, sel: Selector, u: Update)
    requires hi <= |wal|
  {
    exists k :: lo <= k < hi && IsNewest(wal, k, hi) && Selected(sel, wal[k].Id()) && u == (wal[k].Id(), wal[k].data)
  }

  lemma NewestUpdateStep(wal: Wal, lo: nat, hi: nat, sel: Selector, u: Update)
    requires lo < hi <= |wal|
    ensures NewestUpdate(wal, lo, hi, sel, u) <==>
              || NewestUpdate(wal, lo + 1, hi, sel, u)
              || (IsNewest(wal, lo, hi) && Selected(sel, wal[lo].Id()) && u == (wal[lo].Id(), wal[lo].data))
  {
    if NewestUpdate(wal, lo, hi, sel, u) {
      var k :| lo <= k < hi && IsNewest(wal, k, hi) && Selected(sel, wal[k].Id()) && u == (wal[k].Id(), wal[k].data);
      assert k > lo ==> NewestUpdate(wal, lo + 1, hi, sel, u);
    }
  }

  lemma {:induction false} CollapseMember(wal: Wal, lo: nat, hi: nat, sel: Selector, u: Update)
    requires lo <= hi <= |wal|
    ensures u in Collapse(wal, lo, hi, sel) <==> NewestUpdate(wal, lo, hi, sel, u)
    decreases hi - lo
  {
    hide NewestUpdate, IsNewest;
    if lo < hi {
      CollapseMember(wal, lo + 1, hi, sel, u);
      NewestUpdateStep(wal, lo, hi, sel, u);
    } else {
      NothingInEmptyRange(wal, lo, sel, u);
    }
  }

  lemma NothingInEmptyRange(wal: Wal, lo: nat, sel: Selector, u: Update)
    requires lo <= |wal|
    ensures !NewestUpdate(wal, lo, lo, sel, u)
  {
  }

  predicate DistinctIds(ups: seq<Update>)
  {
    forall i, j :: 0 <= i < j < |ups| ==> ups[i].0 != ups[j].0
  }

  lemma OnceOnly(wal: Wal, lo: nat, hi: nat, sel: Selector, u: Update)
    requires lo < hi <= |wal| && IsNewest(wal, lo, hi) && u in Collapse(wal, lo + 1, hi, sel)
    ensures u.0 != wal[lo].Id()
  {
    CollapseMember(wal, lo + 1, hi, sel, u);
  }

  lemma DistinctCons(u: Update, rest: seq<Update>)
    requires DistinctIds(rest) && forall i :: 0 <= i < |rest| ==> rest[i].0 != u.0
    ensures DistinctIds([u] + rest)
  {
  }

  lemma {:induction false} CollapseDistinct(wal: Wal, lo: nat, hi: nat, sel: Selector)
    requires lo <= hi <= |wal|
    ensures DistinctIds(Collapse(wal, lo, hi, sel))
    decreases hi - lo
  {
    hide IsNewest, Selected;
    if lo < hi {
      CollapseDistinct(wal, lo + 1, hi, sel);
      var ups, rest := Collapse(wal, lo, hi, sel), Collapse(wal, lo + 1, hi, sel);
      if Selected(sel, wal[lo].Id()) && IsNewest(wal, lo, hi) {
        forall i | 0 <= i < |rest| ensures rest[i].0 != wal[lo].Id() {
          OnceOnly(wal, lo, hi, sel, rest[i]);
        }
        DistinctCons((wal[lo].Id(), wal[lo].data), rest);
      } else {
        assert ups == rest;
      }
    }
  }

  /** The updates are those of the frames at the given ascending positions. */
  ghost predicate FromFrames(wal: Wal, lo: nat, hi: nat, ups: seq<Update>, at: seq<nat>)
    requires hi <= |wal|
  {
    && |at| == |ups|
    && (forall i :: 0 <= i < |at| ==> lo <= at[i] < hi && ups[i] == (wal[at[i]].Id(), wal[at[i]].data))
    && forall i, j :: 0 <= i < j < |at| ==> at[i] < at[j]
  }

  lemma FromFramesCons(wal: Wal, lo: nat, hi: nat, ups: seq<Update>, at: seq<nat>)
    requires lo < hi <= |wal| && FromFrames(wal, lo + 1, hi, ups, at)
    ensures FromFrames(wal, lo, hi, [(wal[lo].Id(), wal[lo].data)] + ups, [lo] + at)
  {
  }

  /** The answer lists the pages in the order of the frames they come from. */
  lemma {:induction false} CollapseInFrameOrder(wal: Wal, lo: nat, hi: nat, sel: Selector) returns (at: seq<nat>)
    requires lo <= hi <= |wal|
    ensures FromFrames(wal, lo, hi, Collapse(wal, lo, hi, sel), at)
    decreases hi - lo
  {
    hide IsNewest, Selected;
    at := [];
    if lo < hi {
      at := CollapseInFrameOrder(wal, lo + 1, hi, sel);
      if Selected(sel, wal[lo].Id()) && IsNewest(wal, lo, hi) {
        FromFramesCons(wal, lo, hi, Collapse(wal, lo + 1, hi, sel), at);
        at := [lo] + at;
      }
    }
  }

  /** Each selected page touched in the range is sent exactly once, with its newest content, and nothing else is. */
  lemma CollapseExact(wal: Wal, lo: nat, hi: nat, sel: Selector)
    requires lo <= hi <= |wal|
    ensures var ups := Collapse(wal, lo, hi, sel);
            && (forall u :: u in ups <==> NewestUpdate(wal, lo, hi, sel, u))
            && DistinctIds(ups)
  {
    CollapseDistinct(wal, lo, hi, sel);
    forall u ensures u in Collapse(wal, lo, hi, sel) <==> NewestUpdate(wal, lo, hi, sel, u) {
      CollapseMember(wal, lo, hi, sel, u);
    }
  }

  // ---------------------------------------------------------------- replicas

  type Replica = map<int, PageData>

  function Apply(r: Replica, ups: seq<Update>): Replica
    decreases |ups|
  {
    if ups == [] then r else Apply(r[ups[0].0 := ups[0].1], ups[1..])
  }

  /** The database after the first `n` WAL frames. */
  function Replay(base: Replica, wal: Wal, n: nat): Replica
    requires n <= |wal|
  {
    if n == 0 then base else Replay(base, wal, n - 1)[wal[n - 1].Id() := wal[n - 1].data]
  }

  ghost predicate SamePage(a: Replica, b: Replica, id: int)
  {
    (id in a <==> id in b) && (id in a ==> a[id] == b[id])
  }

  ghost predicate Agree(sel: Selector, a: Replica, b: Replica)
  {
    forall id :: Selected(sel, id) ==> SamePage(a, b, id)
  }

  lemma {:induction false} ApplyValue(r: Replica, ups: seq<Update>, i: nat)
    requires i < |ups| && DistinctIds(ups)
    ensures ups[i].0 in Apply(r, ups) && Apply(r, ups)[ups[i].0] == ups[i].1
    decreases |ups|
  {
    if i == 0 {
      ApplyUntouched(r[ups[0].0 := ups[0].1], ups[1..], ups[0].0);
    } else {
      ApplyValue(r[ups[0].0 := ups[0].1], ups[1..], i - 1);
    }
  }

  lemma {:induction false} ApplyUntouched(r: Replica, ups: seq<Update>, id: int)
    requires forall i :: 0 <= i < |ups| ==> ups[i].0 != id
    ensures SamePage(Apply(r, ups), r, id)
    decreases |ups|
  {
    if ups != [] {
      ApplyUntouched(r[ups[0].0 := ups[0].1], ups[1..], id);
    }
  }

  lemma {:induction false} ReplayNewest(base: Replica, wal: Wal, k: nat, hi: nat)
    requires k < hi <= |wal| && IsNewest(wal, k, hi)
    ensures wal[k].Id() in Replay(base, wal, hi) && Replay(base, wal, hi)[wal[k].Id()] == wal[k].data
    decreases hi
  {
    if k < hi - 1 {
      ReplayNewest(base, wal, k, hi - 1);
    }
  }

  lemma {:induction false} ReplayUntouched(base: Replica, wal: Wal, lo: nat, hi: nat, id: int)
    requires lo <= hi <= |wal| && !Touches(wal, lo, hi, id)
    ensures SamePage(Replay(base, wal, hi), Replay(base, wal, lo), id)
    decreases hi
  {
    if lo < hi {
      assert wal[hi - 1].Id() != id;
      ReplayUntouched(base, wal, lo, hi - 1, id);
    }
  }

  lemma {:induction false} NewestExists(wal: Wal, lo: nat, hi: nat, id: int) returns (k: nat)
    requires hi <= |wal| && Touches(wal, lo, hi, id)
    ensures lo <= k < hi && wal[k].Id() == id && IsNewest(wal, k, hi)
    decreases hi
  {
    if wal[hi - 1].Id() == id {
      k := hi - 1;
    } else {
      k := NewestExists(wal, lo, hi - 1, id);
    }
  }

  /** One answer carries a replica from revision `lo` to revision `hi` on the selected pages. */
  lemma AnswerAdvances(base: Replica, wal: Wal, r: Replica, lo: nat, hi: nat, sel: Selector)
    requires lo <= hi <= |wal| && Agree(sel, r, Replay(base, wal, lo))
    ensures Agree(sel, Apply(r, Collapse(wal, lo, hi, sel)), Replay(base, wal, hi))
  {
    var ups := Collapse(wal, lo, hi, sel);
    CollapseExact(wal, lo, hi, sel);
    forall id | Selected(sel, id)
      ensures SamePage(Apply(r, ups), Replay(base, wal, hi), id)
    {
      if Touches(wal, lo, hi, id) {
        var k := NewestExists(wal, lo, hi, id);
        var u := (wal[k].Id(), wal[k].data);
        assert NewestUpdate(wal, lo, hi, sel, u);
        var i :| 0 <= i < |ups| && ups[i] == u;
        ApplyValue(r, ups, i);
        ReplayNewest(base, wal, k, hi);
      } else {
        forall i | 0 <= i < |ups| ensures ups[i].0 != id {
          assert NewestUpdate(wal, lo, hi, sel, ups[i]);
        }
        ApplyUntouched(r, ups, id);
        ReplayUntouched(base, wal, lo, hi, id);
        assert SamePage(r, Replay(base, wal, lo), id);
      }
    }
  }

  // ---------------------------------------------------------------- chains of pulls

  datatype PageClient = PageClient(replica: Replica, revision: string)

  datatype World = World(wal: Wal, client: PageClient)

  /** The WAL grows, or the client pulls up to the requested server revision ("" for the current end). */
  datatype Step = Grow(frames: Wal) | Pull(server: string)

  function Next(w: World, step: Step, sel: Selector): World
  {
    match step
    case Grow(frames) => World(w.wal + frames, w.client)
    case Pull(server) =>
      match PageAnswer(w.wal, w.client.revision, server, sel)
      case None => w
      case Some(a) => World(w.wal, PageClient(Apply(w.client.replica, a.pages), ToDecimal(a.serverRevision)))
  }

  /** A pull that does not ask for a revision older than the one the client already has. */
  predicate Forward(w: World, step: Step)
  {
    step.Pull? ==> ClientRevision(w.client.revision) <= ServerRevision(step.server, |w.wal|)
  }

  ghost predicate Run(w: World, steps: seq<Step>, sel: Selector, w': World)
    decreases |steps|
  {
    if steps == [] then w == w' else Forward(w, steps[0]) && Run(Next(w, steps[0], sel), steps[1..], sel, w')
  }

  ghost predicate InSync(base: Replica, w: World, sel: Selector)
  {
    var n := ClientRevision(w.client.revision);
    && |w.wal| <= USIZE_MAX
    && n <= |w.wal|
    && Agree(sel, w.client.replica, Replay(base, w.wal, n))
  }

  lemma {:induction false} ReplayPrefix(base: Replica, wal: Wal, more: Wal, n: nat)
    requires n <= |wal|
    ensures Replay(base, wal + more, n) == Replay(base, wal, n)
  {
    if n > 0 {
      ReplayPrefix(base, wal, more, n - 1);
    }
  }

  lemma StepStaysInSync(base: Replica, w: World, step: Step, sel: Selector)
    requires InSync(base, w, sel) && Forward(w, step) && |Next(w, step, sel).wal| <= USIZE_MAX
    ensures InSync(base, Next(w, step, sel), sel)
  {
    hide ParseU64, ToDecimal, Replay, Collapse, Agree;
    var lo := ClientRevision(w.client.revision);
    match step
    case Grow(frames) =>
      ReplayPrefix(base, w.wal, frames, lo);
    case Pull(server) =>
      var hi := ServerRevision(server, |w.wal|);
      if hi <= |w.wal| {
        ParseU64RoundTrip(hi);
        AnswerAdvances(base, w.wal, w.client.replica, lo, hi, sel);
      }
  }

  /** Over any chain of forward pulls, the replica agrees with full WAL replay on the selected pages. */
  lemma {:induction false} ChainAgrees(base: Replica, w: World, steps: seq<Step>, sel: Selector, w': World)
    requires InSync(base, w, sel) && Run(w, steps, sel, w') && |w'.wal| <= USIZE_MAX
    ensures InSync(base, w', sel)
    decreases |steps|
  {
    hide InSync, Forward;
    if steps != [] {
      WalOnlyGrows(Next(w, steps[0], sel), steps[1..], sel, w');
      StepStaysInSync(base, w, steps[0], sel);
      ChainAgrees(base, Next(w, steps[0], sel), steps[1..], sel, w');
    }
  }

  lemma {:induction false} WalOnlyGrows(w: World, steps: seq<Step>, sel: Selector, w': World)
    requires Run(w, steps, sel, w')
    ensures w.wal <= w'.wal
    decreases |steps|
  {
    if steps != [] {
      WalOnlyGrows(Next(w, steps[0], sel), steps[1..], sel, w');
    }
  }

  /** A client without a usable revision is in sync exactly when it holds what the WAL starts from. */
  lemma FreshClientInSync(base: Replica, w: World, sel: Selector)
    requires (w.client.revision == "" || ParseU64(w.client.revision).None?) && |w.wal| <= USIZE_MAX
    ensures InSync(base, w, sel) <==> Agree(sel, w.client.replica, base)
  {
    assert Replay(base, w.wal, 0) == base;
  }

  /** A client told revision `n` is in sync exactly when it holds the first `n` frames replayed. */
  lemma ClientAtInSync(base: Replica, w: World, sel: Selector, n: uint64)
    requires w.client.revision == ToDecimal(n) && |w.wal| <= USIZE_MAX
    ensures InSync(base, w, sel) <==> n <= |w.wal| && Agree(sel, w.client.replica, Replay(base, w.wal, n))
  {
    hide ParseU64, ToDecimal;
    ParseU64RoundTrip(n);
  }

  /** Asking without a usable revision, as the sync engine does, brings any client in sync to the end of the WAL. */
  lemma PullReachesEnd(base: Replica, w: World, sel: Selector, server: string)
    requires InSync(base, w, sel) && (server == "" || ParseU64(server).None?)
    ensures var c := Next(w, Pull(server), sel).client;
            c.revision == ToDecimal(|w.wal|) && Agree(sel, c.replica, Replay(base, w.wal, |w.wal|))
  {
    hide ParseU64, ToDecimal, Replay, Collapse, Agree;
    AnswerAdvances(base, w.wal, w.client.replica, ClientRevision(w.client.revision), |w.wal|, sel);
  }

  /** Asking for revision `hi` brings a client in sync exactly there, or fails and changes nothing past the end of the WAL. */
  lemma PullReachesRevision(base: Replica, w: World, sel: Selector, hi: uint64)
    requires InSync(base, w, sel) && ClientRevision(w.client.revision) <= hi
    ensures var after := Next(w, Pull(ToDecimal(hi)), sel);
            && after.wal == w.wal
            && if hi <= |w.wal| then after.client.revision == ToDecimal(hi) && Agree(sel, after.client.replica, Replay(base, w.wal, hi))
               else after == w
  {
    hide ParseU64, ToDecimal, Replay, Collapse, Agree;
    ParseU64RoundTrip(hi);
    if hi <= |w.wal| {
      AnswerAdvances(base, w.wal, w.client.replica, ClientRevision(w.client.revision), hi, sel);
    }
  }

  /** A request for revision `hi` by a client at `lo` keeps every replica that is in sync in sync. */
  ghost predicate AlwaysSafe(lo: nat, hi: nat)
  {
    forall base: Replica, w: World, sel: Selector ::
      InSync(base, w, sel) && ClientRevision(w.client.revision) == lo ==>
        InSync(base, Next(w, Pull(ToDecimal(hi)), sel), sel)
  }

  /** The exact condition: asking for an older revision can leave the replica ahead of the revision it reports. */
  lemma SafeIffForward(lo: uint64, hi: uint64)
    ensures AlwaysSafe(lo, hi) <==> lo <= hi
  {
    hide Agree, Replay, ParseU64;
    ParseU64RoundTrip(hi);
    if lo <= hi {
      forall base: Replica, w: World, sel: Selector | InSync(base, w, sel) && ClientRevision(w.client.revision) == lo
        ensures InSync(base, Next(w, Pull(ToDecimal(hi)), sel), sel)
      {
        StepStaysInSync(base, w, Pull(ToDecimal(hi)), sel);
      }
    } else {
      var base, w := BackwardPull(lo, hi);
    }
  }

  /** Every frame rewrites page 0; the client holds the last version and is told it is at `hi`. */
  lemma BackwardPull(lo: uint64, hi: uint64) returns (base: Replica, w: World)
    requires hi < lo
    ensures InSync(base, w, None) && ClientRevision(w.client.revision) == lo
    ensures !InSync(base, Next(w, Pull(ToDecimal(hi)), None), None)
  {
    hide ParseU64, ToDecimal;
    var wal: Wal := seq(lo, i requires 0 <= i < lo => WalFrame(1, if i < hi then [] else [0]));
    base := map[0 := []];
    AllOnPageZero(base, wal, lo);
    AllOnPageZero(base, wal, hi);
    ParseU64RoundTrip(lo);
    ParseU64RoundTrip(hi);
    w := World(wal, PageClient(map[0 := [0]], ToDecimal(lo)));
    assert Replay(base, wal, lo) == map[0 := [0]];
    var w' := Next(w, Pull(ToDecimal(hi)), None);
    assert w'.client == PageClient(w.client.replica, ToDecimal(hi));
    assert !SamePage(w'.client.replica, Replay(base, wal, hi), 0);
  }

  lemma {:induction false} AllOnPageZero(base: Replica, wal: Wal, n: nat)
    requires n <= |wal| && 0 in base && forall i :: 0 <= i < |wal| ==> wal[i].pageNo == 1
    ensures Replay(base, wal, n) == base[0 := if n == 0 then base[0] else wal[n - 1].data]
  {
    if n > 0 {
      AllOnPageZero(base, wal, n - 1);
    }
  }
}
