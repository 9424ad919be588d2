/** What the reference count of a schema cell counts: the places that hold a reference to it. */
module SchemaCounts {
  import opened Common
  import opened SchemaArcs

  /** A reference among those of one set of schemas. */
  datatype Slot = MainSlot | TempSlot | StagedSlot(id: nat)

  /** A reference of a connection or its databases. */
  datatype Place = Own(slot: Slot) | Saved(frame: nat, slot: Slot) | Published(id: nat)

  predicate SlotHolds(main: Ref, temp: Option<Ref>, staged: map<nat, Ref>, slot: Slot, r: Ref)
  {
    match slot
    case MainSlot => main == r
    case TempSlot => temp == Some(r)
    case StagedSlot(id) => id in staged && staged[id] == r
  }

  predicate FrameHolds(f: Frame, slot: Slot, r: Ref)
  {
    SlotHolds(f.main, f.temp, f.staged, slot, r)
  }

  predicate Holds(x: Roots, p: Place, r: Ref)
  {
    match p
    case Own(slot) => SlotHolds(x.schema, x.temp, x.staged, slot, r)
    case Saved(i, slot) => i < |x.frames| && FrameHolds(x.frames[i], slot, r)
    case Published(id) => id in x.shared && x.shared[id] == r
  }

  // ---------------------------------------------------------------- maps

  lemma TwoKeys(m: map<nat, Ref>, r: Ref, j: nat, k: nat)
    requires j in m && m[j] == r && k in m && m[k] == r && j != k
    ensures Held(m, r) >= 2
  {
    var s := Holders(m, r);
    assert j in s && k in s - {j} && |s| == |s - {j}| + 1 && |s - {j}| == |s - {j} - {k}| + 1;
  }

  lemma SomeKey(m: map<nat, Ref>, r: Ref) returns (k: nat)
    requires Held(m, r) >= 1
    ensures k in m && m[k] == r
  {
    k :| k in Holders(m, r);
  }

  lemma TwoOfThem(m: map<nat, Ref>, r: Ref) returns (j: nat, k: nat)
    requires Held(m, r) >= 2
    ensures j in m && m[j] == r && k in m && m[k] == r && j != k
  {
    j :| j in Holders(m, r);
    var others := Holders(m, r) - {j};
    assert |others| >= 1;
    k :| k in others;
  }

  // ---------------------------------------------------------------- one set of schemas

  function SlotsHeld(main: Ref, temp: Option<Ref>, staged: map<nat, Ref>, r: Ref): nat
  {
    One(main == r) + One(temp == Some(r)) + Held(staged, r)
  }

  lemma SomeSlot(main: Ref, temp: Option<Ref>, staged: map<nat, Ref>, r: Ref) returns (slot: Slot)
    requires SlotsHeld(main, temp, staged, r) >= 1
    ensures SlotHolds(main, temp, staged, slot, r)
  {
    slot := MainSlot;
    if main != r {
      slot := TempSlot;
      if temp != Some(r) {
        var k := SomeKey(staged, r);
        slot := StagedSlot(k);
      }
    }
  }

  lemma TwoSlots(main: Ref, temp: Option<Ref>, staged: map<nat, Ref>, r: Ref) returns (a: Slot, b: Slot)
    requires SlotsHeld(main, temp, staged, r) >= 2
    ensures a != b && SlotHolds(main, temp, staged, a, r) && SlotHolds(main, temp, staged, b, r)
  {
    if Held(staged, r) >= 2 {
      var j, k := TwoOfThem(staged, r);
      a, b := StagedSlot(j), StagedSlot(k);
    } else if main == r && temp == Some(r) {
      a, b := MainSlot, TempSlot;
    } else {
      var k := SomeKey(staged, r);
      a, b := if main == r then MainSlot else TempSlot, StagedSlot(k);
    }
  }

  lemma SlotCounts(main: Ref, temp: Option<Ref>, staged: map<nat, Ref>, r: Ref, a: Slot, b: Slot)
    requires SlotHolds(main, temp, staged, a, r) && SlotHolds(main, temp, staged, b, r)
    ensures SlotsHeld(main, temp, staged, r) >= (if a == b then 1 else 2)
  {
    if a.StagedSlot? {
      HeldAtLeast(staged, a.id);
      if b.StagedSlot? && a != b {
        TwoKeys(staged, r, a.id, b.id);
      }
    }
    if b.StagedSlot? {
      HeldAtLeast(staged, b.id);
    }
  }

  // ---------------------------------------------------------------- frames

  lemma {:induction false} SomeFrame(frames: seq<Frame>, r: Ref) returns (i: nat, slot: Slot)
    requires FramesHeld(frames, r) >= 1
    ensures i < |frames| && FrameHolds(frames[i], slot, r)
  {
    var n := |frames| - 1;
    var f := frames[n];
    if FrameHeld(f, r) >= 1 {
      i := n;
      slot := SomeSlot(f.main, f.temp, f.staged, r);
    } else {
      i, slot := SomeFrame(frames[..n], r);
    }
  }

  lemma {:induction false} TwoFrames(frames: seq<Frame>, r: Ref) returns (i: nat, a: Slot, j: nat, b: Slot)
    requires FramesHeld(frames, r) >= 2
    ensures i < |frames| && j < |frames| && (i != j || a != b) && FrameHolds(frames[i], a, r) && FrameHolds(frames[j], b, r)
  {
    var n := |frames| - 1;
    var f := frames[n];
    if FrameHeld(f, r) >= 2 {
      i, j := n, n;
      a, b := TwoSlots(f.main, f.temp, f.staged, r);
    } else if FrameHeld(f, r) == 1 {
      i, a := SomeFrame(frames[..n], r);
      j := n;
      b := SomeSlot(f.main, f.temp, f.staged, r);
    } else {
      i, a, j, b := TwoFrames(frames[..n], r);
    }
  }

  lemma {:induction false} FrameCounts(frames: seq<Frame>, r: Ref, i: nat, a: Slot, j: nat, b: Slot)
    requires i < |frames| && j < |frames| && FrameHolds(frames[i], a, r) && FrameHolds(frames[j], b, r)
    ensures FramesHeld(frames, r) >= (if i == j && a == b then 1 else 2)
    decreases |frames|
  {
    var n := |frames| - 1;
    var f := frames[n];
    if i == n && j == n {
      SlotCounts(f.main, f.temp, f.staged, r, a, b);
    } else if i == n {
      SlotCounts(f.main, f.temp, f.staged, r, a, a);
      FrameCounts(frames[..n], r, j, b, j, b);
    } else if j == n {
      SlotCounts(f.main, f.temp, f.staged, r, b, b);
      FrameCounts(frames[..n], r, i, a, i, a);
    } else {
      FrameCounts(frames[..n], r, i, a, j, b);
    }
  }

  // ---------------------------------------------------------------- all references

  lemma SomePlace(x: Roots, r: Ref) returns (p: Place)
    requires RootsHeld(x, r) >= 1
    ensures Holds(x, p, r)
  {
    if SlotsHeld(x.schema, x.temp, x.staged, r) >= 1 {
      var slot := SomeSlot(x.schema, x.temp, x.staged, r);
      p := Own(slot);
    } else if FramesHeld(x.frames, r) >= 1 {
      var i, slot := SomeFrame(x.frames, r);
      p := Saved(i, slot);
    } else {
      var k := SomeKey(x.shared, r);
      p := Published(k);
    }
  }

  lemma TwoPlaces(x: Roots, r: Ref) returns (p: Place, q: Place)
    requires RootsHeld(x, r) >= 2
    ensures p != q && Holds(x, p, r) && Holds(x, q, r)
  {
    var own, saved, published := SlotsHeld(x.schema, x.temp, x.staged, r), FramesHeld(x.frames, r), Held(x.shared, r);
    if own >= 2 {
      var a, b := TwoSlots(x.schema, x.temp, x.staged, r);
      return Own(a), Own(b);
    }
    if saved >= 2 {
      var i, a, j, b := TwoFrames(x.frames, r);
      return Saved(i, a), Saved(j, b);
    }
    if published >= 2 {
      var j, k := TwoOfThem(x.shared, r);
      return Published(j), Published(k);
    }
    if own == 1 {
      var a := SomeSlot(x.schema, x.temp, x.staged, r);
      p := Own(a);
    } else {
      var k := SomeKey(x.shared, r);
      p := Published(k);
    }
    if saved == 1 {
      var i, a := SomeFrame(x.frames, r);
      q := Saved(i, a);
    } else {
      var k := SomeKey(x.shared, r);
      q := Published(k);
    }
  }

  lemma PlaceCounts(x: Roots, r: Ref, p: Place, q: Place)
    requires Holds(x, p, r) && Holds(x, q, r)
    ensures RootsHeld(x, r) >= (if p == q then 1 else 2)
  {
    hide SlotHolds, FrameHolds, FramesHeld, Held;
    PartCounts(x, r, p, p);
    PartCounts(x, r, q, q);
    PartCounts(x, r, p, q);
  }

  /** Each kind of place has a part of the count to itself. */
  lemma PartCounts(x: Roots, r: Ref, p: Place, q: Place)
    requires Holds(x, p, r) && Holds(x, q, r)
    ensures var n := if p == q then 1 else 2;
            && (p.Own? && q.Own? ==> SlotsHeld(x.schema, x.temp, x.staged, r) >= n)
            && (p.Saved? && q.Saved? ==> FramesHeld(x.frames, r) >= n)
            && (p.Published? && q.Published? ==> Held(x.shared, r) >= n)
  {
    hide FramesHeld, Held;
    if p.Own? && q.Own? {
      SlotCounts(x.schema, x.temp, x.staged, r, p.slot, q.slot);
    } else if p.Saved? && q.Saved? {
      FrameCounts(x.frames, r, p.frame, p.slot, q.frame, q.slot);
    } else if p.Published? && q.Published? {
      HeldAtLeast(x.shared, p.id);
      if p != q {
        TwoKeys(x.shared, r, p.id, q.id);
      }
    }
  }

  /** A cell is written in place exactly when one place holds it: counted one when held once, none when nowhere. */
  lemma CountedOnceIffSole(x: Roots, r: Ref)
    ensures RootsHeld(x, r) == 0 <==> forall p :: !Holds(x, p, r)
    ensures RootsHeld(x, r) == 1 <==> exists p :: Holds(x, p, r) && forall q :: Holds(x, q, r) ==> q == p
  {
    hide RootsHeld, Holds;
    forall p, q | Holds(x, p, r) && Holds(x, q, r) ensures RootsHeld(x, r) >= (if p == q then 1 else 2) {
      PlaceCounts(x, r, p, q);
    }
    if RootsHeld(x, r) >= 1 {
      var p := SomePlace(x, r);
    }
    if RootsHeld(x, r) >= 2 {
      var p, q := TwoPlaces(x, r);
    }
  }
}
