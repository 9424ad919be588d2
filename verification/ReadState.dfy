/** The shell's statement-completeness automaton. */
module ReadState {
  import opened Common

  datatype State = Invalid | Start | Normal | Explain | Create | Trigger | Semi | End

  datatype Token = TkSemi | TkWhitespace | TkOther | TkExplain | TkCreate | TkTemp | TkTrigger | TkEnd

  predicate IsComplete(s: State) { s == Start }

  function Transition(s: State, t: Token): State
  {
    match s
    case Invalid =>
      (match t
       case TkSemi => Start
       case TkWhitespace => Invalid
       case TkExplain => Explain
       case TkCreate => Create
       case _ => Normal)
    case Start =>
      (match t
       case TkSemi => Start
       case TkWhitespace => Start
       case TkExplain => Explain
       case TkCreate => Create
       case _ => Normal)
    case Normal => if t == TkSemi then Start else Normal
    case Explain =>
      (match t
       case TkSemi => Start
       case TkWhitespace => Explain
       case TkOther => Explain
       case TkCreate => Create
       case _ => Normal)
    case Create =>
      (match t
       case TkSemi => Start
       case TkWhitespace => Create
       case TkTemp => Create
       case TkTrigger => Trigger
       case _ => Normal)
    case Trigger => if t == TkSemi then Semi else Trigger
    case Semi =>
      (match t
       case TkSemi => Semi
       case TkWhitespace => Semi
       case TkEnd => End
       case _ => Trigger)
    case End =>
      (match t
       case TkSemi => Start
       case TkWhitespace => End
       case _ => Trigger)
  }

  function Run(s: State, ts: seq<Token>): State
    decreases |ts|
  {
    if ts == [] then s else Run(Transition(s, ts[0]), ts[1..])
  }

  lemma {:induction false} RunAppend(s: State, ts: seq<Token>, us: seq<Token>)
    ensures Run(s, ts + us) == Run(Run(s, ts), us)
    decreases |ts|
  {
    if ts == [] {
      assert ts + us == us;
    } else {
      RunAppend(Transition(s, ts[0]), ts[1..], us);
      assert (ts + us)[1..] == ts[1..] + us;
    }
  }

  // ---------------------------------------------------------------- whitespace

  function WithoutWhitespace(ts: seq<Token>): seq<Token>
  {
    if ts == [] then []
    else (if ts[0] == TkWhitespace then [] else [ts[0]]) + WithoutWhitespace(ts[1..])
  }

  /** Deleting every whitespace token never changes where a run ends. */
  lemma {:induction false} WhitespaceIsInert(s: State, ts: seq<Token>)
    ensures Run(s, WithoutWhitespace(ts)) == Run(s, ts)
    decreases |ts|
  {
    if ts != [] {
      WhitespaceIsInert(Transition(s, ts[0]), ts[1..]);
      if ts[0] == TkWhitespace {
        assert WithoutWhitespace(ts) == WithoutWhitespace(ts[1..]);
      } else {
        assert WithoutWhitespace(ts)[1..] == WithoutWhitespace(ts[1..]);
      }
    }
  }

  // ---------------------------------------------------------------- leaving a trigger body

  /** `; END ;` at position `i`. */
  predicate ClosesAt(ts: seq<Token>, i: nat)
  {
    i + 3 <= |ts| && ts[i] == TkSemi && ts[i + 1] == TkEnd && ts[i + 2] == TkSemi
  }

  /** Where a run from trigger mode is while it has not met `; END ;`. */
  ghost predicate BodyState(ts: seq<Token>, s: State)
  {
    match s
    case Trigger =>
      !(|ts| >= 1 && ts[|ts| - 1] == TkSemi) && !(|ts| >= 2 && ts[|ts| - 2] == TkSemi && ts[|ts| - 1] == TkEnd)
    case Semi => |ts| >= 1 && ts[|ts| - 1] == TkSemi
    case End => |ts| >= 2 && ts[|ts| - 2] == TkSemi && ts[|ts| - 1] == TkEnd
    case _ => false
  }

  lemma {:induction false} BodyRun(ts: seq<Token>)
    requires TkWhitespace !in ts && forall i: nat :: !ClosesAt(ts, i)
    ensures BodyState(ts, Run(Trigger, ts))
    decreases |ts|
  {
    if ts != [] {
      var n := |ts| - 1;
      var init := ts[..n];
      assert ts == init + [ts[n]];
      forall i: nat ensures !ClosesAt(init, i) {
        assert ClosesAt(init, i) ==> ClosesAt(ts, i);
      }
      BodyRun(init);
      RunAppend(Trigger, init, [ts[n]]);
      assert Run(Run(Trigger, init), [ts[n]]) == Transition(Run(Trigger, init), ts[n]);
      if n >= 2 {
        assert !ClosesAt(ts, n - 2);
      }
    }
  }

  /**
   From trigger mode a run is complete for the first time exactly after the first `; END ;`:
   every prefix that does not contain one is incomplete, and the prefix that ends with the first one is complete.
   */
  lemma TriggerCompletes(ts: seq<Token>, n: nat)
    requires n <= |ts| && TkWhitespace !in ts
    requires forall i: nat :: i + 3 < n ==> !ClosesAt(ts, i)
    ensures IsComplete(Run(Trigger, ts[..n])) <==> n >= 3 && ClosesAt(ts, n - 3)
  {
    var p := ts[..n];
    if n >= 3 && ClosesAt(ts, n - 3) {
      var q := ts[..n - 1];
      assert p == q + [TkSemi];
      forall i: nat ensures !ClosesAt(q, i) {
        assert ClosesAt(q, i) ==> ClosesAt(ts, i);
      }
      BodyRun(q);
      assert q[|q| - 2] == TkSemi && q[|q| - 1] == TkEnd;
      RunAppend(Trigger, q, [TkSemi]);
      assert Run(Run(Trigger, q), [TkSemi]) == Transition(Run(Trigger, q), TkSemi);
    } else {
      forall i: nat ensures !ClosesAt(p, i) {
        assert ClosesAt(p, i) ==> ClosesAt(ts, i);
      }
      BodyRun(p);
    }
  }

  /** The same for token streams with whitespace in them. */
  lemma TriggerCompletesAnywhere(ts: seq<Token>)
    ensures var us := WithoutWhitespace(ts);
            (forall i: nat :: i + 3 < |us| ==> !ClosesAt(us, i)) ==>
              (IsComplete(Run(Trigger, ts)) <==> |us| >= 3 && ClosesAt(us, |us| - 3))
  {
    var us := WithoutWhitespace(ts);
    WhitespaceIsInert(Trigger, ts);
    NoWhitespaceLeft(ts);
    if forall i: nat :: i + 3 < |us| ==> !ClosesAt(us, i) {
      TriggerCompletes(us, |us|);
      assert us[..|us|] == us;
    }
  }

  lemma {:induction false} NoWhitespaceLeft(ts: seq<Token>)
    ensures TkWhitespace !in WithoutWhitespace(ts)
    decreases |ts|
  {
    if ts != [] {
      NoWhitespaceLeft(ts[1..]);
    }
  }

  // ---------------------------------------------------------------- the language of complete inputs

  // A trigger header is CREATE TEMP* TRIGGER, or EXPLAIN OTHER* followed by one; the
  // functions give the number of tokens it takes.

  function CreateTail(ts: seq<Token>): Option<nat>
  {
    if ts == [] then None
    else if ts[0] == TkTrigger then Some(1)
    else if ts[0] == TkTemp then Plus1(CreateTail(ts[1..]))
    else None
  }

  function ExplainTail(ts: seq<Token>): Option<nat>
  {
    if ts == [] then None
    else if ts[0] == TkCreate then Plus1(CreateTail(ts[1..]))
    else if ts[0] == TkOther then Plus1(ExplainTail(ts[1..]))
    else None
  }

  function TriggerHeader(ts: seq<Token>): Option<nat>
  {
    if ts == [] then None
    else if ts[0] == TkCreate then Plus1(CreateTail(ts[1..]))
    else if ts[0] == TkExplain then Plus1(ExplainTail(ts[1..]))
    else None
  }

  function Plus1(o: Option<nat>): Option<nat>
  {
    match o
    case None => None
    case Some(n) => Some(n + 1)
  }

  /** `i` is the first semicolon. */
  ghost predicate FirstSemi(ts: seq<Token>, i: nat)
  {
    i < |ts| && ts[i] == TkSemi && forall k :: 0 <= k < i ==> ts[k] != TkSemi
  }

  /** `i` is the first `; END ;` at or after `from`. */
  ghost predicate FirstClose(ts: seq<Token>, from: nat, i: nat)
  {
    from <= i && ClosesAt(ts, i) && forall k: nat :: from <= k < i ==> !ClosesAt(ts, k)
  }

  /** The first `e` tokens are one statement: up to its first semicolon, or, for a trigger, up to the `; END ;` after its header. */
  ghost predicate StatementEnd(ts: seq<Token>, e: nat)
  {
    match TriggerHeader(ts)
    case None => e >= 1 && FirstSemi(ts, e - 1)
    case Some(h) => e >= 3 && FirstClose(ts, h, e - 3)
  }

  /** One statement after another, and nothing after the last. */
  ghost predicate Statements(ts: seq<Token>)
    decreases |ts|
  {
    exists e :: 1 <= e <= |ts| && StatementEnd(ts, e) && (e == |ts| || Statements(ts[e..]))
  }

  /** What is left of a trigger header in state `s`. */
  ghost function HeaderFrom(s: State, ts: seq<Token>): Option<nat>
  {
    match s
    case Invalid => TriggerHeader(ts)
    case Start => TriggerHeader(ts)
    case Explain => ExplainTail(ts)
    case Create => CreateTail(ts)
    case _ => None
  }

  ghost predicate InHead(s: State) { s.Normal? || s.Explain? || s.Create? }

  lemma {:induction false} PlainRun(s: State, ts: seq<Token>, n: nat)
    requires n <= |ts| && TkWhitespace !in ts && TkSemi !in ts[..n]
    requires (s.Invalid? || s.Start? || InHead(s)) && HeaderFrom(s, ts).None?
    ensures n == 0 || InHead(Run(s, ts[..n]))
    ensures InHead(s) ==> InHead(Run(s, ts[..n]))
    decreases n
  {
    if n > 0 {
      assert ts[..n][0] == ts[0] && ts[..n][1..] == ts[1..][..n - 1];
      PlainRun(Transition(s, ts[0]), ts[1..], n - 1);
    }
  }

  lemma {:induction false} HeaderRun(s: State, ts: seq<Token>)
    requires TkWhitespace !in ts && HeaderFrom(s, ts).Some?
    ensures var h := HeaderFrom(s, ts).value; 1 <= h <= |ts| && Run(s, ts[..h]) == Trigger
    ensures TkSemi !in ts[..HeaderFrom(s, ts).value]
    decreases |ts|
  {
    var h := HeaderFrom(s, ts).value;
    if ts[0] == TkTrigger {
      assert ts[..1] == [TkTrigger];
      assert Run(s, [TkTrigger]) == Transition(s, TkTrigger);
    } else {
      HeaderRun(Transition(s, ts[0]), ts[1..]);
      assert ts[..h] == [ts[0]] + ts[1..][..h - 1];
    }
  }

  /** A statement brings the automaton to the complete state, and until its end it is not complete. */
  lemma StatementRun(s: State, ts: seq<Token>, e: nat)
    requires (s.Invalid? || s.Start?) && TkWhitespace !in ts && 1 <= e <= |ts| && StatementEnd(ts, e)
    ensures Run(s, ts[..e]) == Start
  {
    if TriggerHeader(ts).None? {
      PlainRun(s, ts, e - 1);
      assert ts[..e] == ts[..e - 1] + [TkSemi];
      RunAppend(s, ts[..e - 1], [TkSemi]);
      assert Run(Run(s, ts[..e - 1]), [TkSemi]) == Transition(Run(s, ts[..e - 1]), TkSemi);
    } else {
      var h := TriggerHeader(ts).value;
      HeaderRun(s, ts);
      var body := ts[h..];
      forall i: nat | i + 3 < e - h ensures !ClosesAt(body, i) {
        assert ClosesAt(body, i) ==> ClosesAt(ts, h + i);
      }
      TriggerCompletes(body, e - h);
      assert ts[..e] == ts[..h] + body[..e - h];
      RunAppend(s, ts[..h], body[..e - h]);
    }
  }

  /** The end of the first statement; zero when there is none, and then the automaton is not complete. */
  lemma EndOrIncomplete(s: State, ts: seq<Token>) returns (e: nat)
    requires s.Invalid? || (s.Start? && ts != [])
    requires TkWhitespace !in ts
    ensures e <= |ts|
    ensures e > 0 ==> StatementEnd(ts, e)
    ensures e == 0 ==> Run(s, ts) != Start && forall e' :: 1 <= e' <= |ts| ==> !StatementEnd(ts, e')
  {
    e := 0;
    if TriggerHeader(ts).None? {
      if TkSemi in ts {
        e := FindSemi(ts);
        e := e + 1;
      } else {
        assert ts[..|ts|] == ts;
        PlainRun(s, ts, |ts|);
      }
    } else {
      var h := TriggerHeader(ts).value;
      HeaderRun(s, ts);
      var body := ts[h..];
      if i: nat :| ClosesAt(body, i) {
        e := FindClose(ts, h, h + i);
        e := e + 3;
      } else {
        BodyRun(body);
        assert ts == ts[..h] + body;
        RunAppend(s, ts[..h], body);
        forall k: nat | h <= k ensures !ClosesAt(ts, k) {
          assert !ClosesAt(body, k - h);
        }
      }
    }
  }

  lemma {:induction false} FindSemi(ts: seq<Token>) returns (i: nat)
    requires TkSemi in ts
    ensures FirstSemi(ts, i)
    decreases |ts|
  {
    if ts[0] == TkSemi {
      i := 0;
    } else {
      i := FindSemi(ts[1..]);
      assert forall k :: 0 < k <= i ==> ts[k] == ts[1..][k - 1];
      i := i + 1;
    }
  }

  lemma {:induction false} FindClose(ts: seq<Token>, from: nat, last: nat) returns (i: nat)
    requires from <= last && ClosesAt(ts, last)
    ensures FirstClose(ts, from, i)
    decreases last - from
  {
    if ClosesAt(ts, from) {
      i := from;
    } else {
      i := FindClose(ts, from + 1, last);
    }
  }

  /**
   The automaton decides exactly this: an input is complete when its tokens, whitespace aside, are a
   sequence of whole statements, where a statement ends at its first semicolon unless it is a
   trigger, which ends at its first `; END ;`.
   */
  lemma CompleteIffStatements(ts: seq<Token>)
    ensures IsComplete(Run(Invalid, ts)) <==> Statements(WithoutWhitespace(ts))
  {
    WhitespaceIsInert(Invalid, ts);
    NoWhitespaceLeft(ts);
    CompleteWithout(Invalid, WithoutWhitespace(ts));
  }

  lemma {:induction false} CompleteWithout(s: State, ts: seq<Token>)
    requires s.Invalid? || (s.Start? && ts != [])
    requires TkWhitespace !in ts
    ensures IsComplete(Run(s, ts)) <==> Statements(ts)
    decreases |ts|
  {
    var e := EndOrIncomplete(s, ts);
    if e > 0 {
      StatementRun(s, ts, e);
      assert ts == ts[..e] + ts[e..];
      RunAppend(s, ts[..e], ts[e..]);
      forall e' | 1 <= e' <= |ts| && StatementEnd(ts, e') ensures e' == e {
        StatementEndUnique(ts, e, e');
      }
      if e < |ts| {
        CompleteWithout(Start, ts[e..]);
      }
    }
  }

  lemma StatementEndUnique(ts: seq<Token>, e: nat, e': nat)
    requires 1 <= e <= |ts| && 1 <= e' <= |ts| && StatementEnd(ts, e) && StatementEnd(ts, e')
    ensures e == e'
  {
  }
}
