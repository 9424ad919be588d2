/** The manual viewer's two-row Levenshtein distance, against edit scripts. */
module EditDistance {
  import opened Common

  // ---------------------------------------------------------------- edit scripts

  datatype Edit = Insert(pos: nat, c: char) | Delete(pos: nat) | Substitute(pos: nat, c: char)

  predicate CanApply(s: string, e: Edit)
  {
    if e.Insert? then e.pos <= |s| else e.pos < |s|
  }

  function ApplyEdit(s: string, e: Edit): string
    requires CanApply(s, e)
  {
    match e
    case Insert(p, c) => s[..p] + [c] + s[p..]
    case Delete(p) => s[..p] + s[p + 1..]
    case Substitute(p, c) => s[..p] + [c] + s[p + 1..]
  }

  /** Applying the edits one after another turns `a` into `b`. */
  ghost predicate Transforms(a: string, es: seq<Edit>, b: string)
    decreases |es|
  {
    if es == [] then a == b else CanApply(a, es[0]) && Transforms(ApplyEdit(a, es[0]), es[1..], b)
  }

  /** `d` is the least number of edits that turn `a` into `b`. */
  ghost predicate IsEditDistance(a: string, b: string, d: nat)
  {
    && (exists es :: Transforms(a, es, b) && |es| == d)
    && (forall es :: Transforms(a, es, b) ==> d <= |es|)
  }

  // ---------------------------------------------------------------- the recurrence

  function Cost(x: char, y: char): nat { if x == y then 0 else 1 }

  function Init(s: string): string
    requires s != ""
  {
    s[..|s| - 1]
  }

  function Last(s: string): char
    requires s != ""
  {
    s[|s| - 1]
  }

  function Lev(a: string, b: string): nat
    decreases |a| + |b|
  {
    if a == "" then |b|
    else if b == "" then |a|
    else Min(Min(Lev(Init(a), b) + 1, Lev(a, Init(b)) + 1), Lev(Init(a), Init(b)) + Cost(Last(a), Last(b)))
  }

  /** The recurrence, for proofs that must not unfold it further. */
  lemma {:induction false} LevUnfold(a: string, b: string)
    ensures Lev(a, b) ==
            if a == "" then |b|
            else if b == "" then |a|
            else Min(Min(Lev(Init(a), b) + 1, Lev(a, Init(b)) + 1), Lev(Init(a), Init(b)) + Cost(Last(a), Last(b)))
  {
    hide Init, Last, Min, Cost;
  }

  lemma LevSnoc(u: string, x: char, v: string, y: char)
    ensures Lev(u + [x], v + [y]) == Min(Min(Lev(u, v + [y]) + 1, Lev(u + [x], v) + 1), Lev(u, v) + Cost(x, y))
  {
    hide Lev;
    LevUnfold(u + [x], v + [y]);
    assert Init(u + [x]) == u && Init(v + [y]) == v;
  }

  lemma LevEmpty(a: string)
    ensures Lev(a, "") == |a| && Lev("", a) == |a|
  {
  }

  /** The distance between the first `i` and the first `j` characters. */
  ghost function Cell(a: string, b: string, i: nat, j: nat): nat
    requires i <= |a| && j <= |b|
  {
    Lev(a[..i], b[..j])
  }

  lemma CellStep(a: string, b: string, i: nat, j: nat)
    requires i <= |a| && j <= |b|
    ensures i == 0 ==> Cell(a, b, i, j) == j
    ensures j == 0 ==> Cell(a, b, i, j) == i
    ensures i > 0 && j > 0 ==>
              Cell(a, b, i, j) == Min(Min(Cell(a, b, i - 1, j) + 1, Cell(a, b, i, j - 1) + 1),
                                      Cell(a, b, i - 1, j - 1) + Cost(a[i - 1], b[j - 1]))
  {
    hide Lev;
    LevEmpty(a[..i]);
    LevEmpty(b[..j]);
    if i > 0 && j > 0 {
      assert a[..i] == a[..i - 1] + [a[i - 1]] && b[..j] == b[..j - 1] + [b[j - 1]];
      LevSnoc(a[..i - 1], a[i - 1], b[..j - 1], b[j - 1]);
    }
  }

  /** The two-row dynamic program. */
  method Levenshtein(a: string, b: string) returns (d: nat)
    ensures IsEditDistance(a, b, d)
  {
    hide Cell, IsEditDistance;
    var aLen, bLen := |a|, |b|;
    WholeCell(a, b);
    CellStep(a, b, aLen, bLen);
    if aLen == 0 {
      return bLen;
    }
    if bLen == 0 {
      return aLen;
    }
    var prevRow := new nat[bLen + 1](j => j);
    var currentRow := new nat[bLen + 1](j => 0);
    forall j | 0 <= j <= bLen ensures Cell(a, b, 0, j) == j {
      CellStep(a, b, 0, j);
    }
    for i := 1 to aLen + 1
      invariant forall j :: 0 <= j <= bLen ==> prevRow[j] == Cell(a, b, i - 1, j)
    {
      currentRow[0] := i;
      CellStep(a, b, i, 0);
      for j := 1 to bLen + 1
        invariant forall k :: 0 <= k <= bLen ==> prevRow[k] == Cell(a, b, i - 1, k)
        invariant forall k :: 0 <= k < j ==> currentRow[k] == Cell(a, b, i, k)
      {
        CellStep(a, b, i, j);
        currentRow[j] := Min(Min(prevRow[j] + 1, currentRow[j - 1] + 1), prevRow[j - 1] + Cost(a[i - 1], b[j - 1]));
      }
      forall k | 0 <= k <= bLen {
        prevRow[k] := currentRow[k];
      }
    }
    d := prevRow[bLen];
  }

  lemma WholeCell(a: string, b: string)
    ensures IsEditDistance(a, b, Cell(a, b, |a|, |b|))
  {
    assert a[..|a|] == a && b[..|b|] == b;
    LevIsEditDistance(a, b);
  }

  // ---------------------------------------------------------------- no script is shorter

  /** One edit moves the distance to a third string by at most one. */
  lemma {:induction false} OneEditBound(u: string, w: string, w': string, v: string, b: string)
    requires |w| <= 1 && |w'| <= 1
    ensures Lev(u + w + v, b) <= Lev(u + w' + v, b) + 1
    decreases |v| + |b|
  {
    hide Lev;
    LevEmpty(u + w + v);
    LevEmpty(u + w' + v);
    if b != "" {
      var b0, y := Init(b), Last(b);
      assert b == b0 + [y];
      OneEditBound(u, w, w', v, b0);
      if v != "" {
        var v0, x := Init(v), Last(v);
        assert u + w + v == (u + w + v0) + [x] && u + w' + v == (u + w' + v0) + [x];
        OneEditBound(u, w, w', v0, b);
        OneEditBound(u, w, w', v0, b0);
        LevSnoc(u + w + v0, x, b0, y);
        LevSnoc(u + w' + v0, x, b0, y);
      } else {
        assert u + w + v == u + w && u + w' + v == u + w' && u + "" == u;
        LevExtend(u, w, b0, y);
        LevExtend(u, w', b0, y);
      }
    }
  }

  /** What the recurrence says about a string with at most one character after `u`. */
  lemma LevExtend(u: string, w: string, v: string, y: char)
    requires |w| <= 1
    ensures Lev(u, v + [y]) <= Lev(u, v) + 1 && Lev(u + w, v + [y]) <= Lev(u + w, v) + 1
    ensures w == "" ==> Lev(u + w, v + [y]) == Lev(u, v + [y])
    ensures w != "" ==> Lev(u + w, v + [y]) <= Lev(u, v + [y]) + 1 && Lev(u + w, v + [y]) <= Lev(u, v) + 1
    ensures w != "" ==> || Lev(u + w, v + [y]) == Lev(u, v + [y]) + 1
                        || Lev(u + w, v + [y]) == Lev(u + w, v) + 1
                        || Lev(u + w, v + [y]) >= Lev(u, v)
  {
    hide Lev;
    assert u + "" == u;
    if w != "" {
      assert w == [w[0]];
      LevSnoc(u, w[0], v, y);
    }
    if u == "" {
      LevEmpty(v + [y]);
      LevEmpty(v);
    } else {
      assert u == Init(u) + [Last(u)];
      LevSnoc(Init(u), Last(u), v, y);
    }
  }

  lemma ApplyBound(a: string, e: Edit, b: string)
    requires CanApply(a, e)
    ensures Lev(a, b) <= Lev(ApplyEdit(a, e), b) + 1
  {
    match e
    case Insert(p, c) =>
      assert a == a[..p] + "" + a[p..];
      OneEditBound(a[..p], "", [c], a[p..], b);
    case Delete(p) =>
      assert a == a[..p] + [a[p]] + a[p + 1..];
      assert ApplyEdit(a, e) == a[..p] + "" + a[p + 1..];
      OneEditBound(a[..p], [a[p]], "", a[p + 1..], b);
    case Substitute(p, c) =>
      assert a == a[..p] + [a[p]] + a[p + 1..];
      OneEditBound(a[..p], [a[p]], [c], a[p + 1..], b);
  }

  lemma {:induction false} LevOfSelf(a: string)
    ensures Lev(a, a) == 0
  {
    if a != "" {
      LevOfSelf(Init(a));
    }
  }

  lemma {:induction false} NoShorterScript(a: string, es: seq<Edit>, b: string)
    requires Transforms(a, es, b)
    ensures Lev(a, b) <= |es|
    decreases |es|
  {
    if es == [] {
      LevOfSelf(a);
    } else {
      NoShorterScript(ApplyEdit(a, es[0]), es[1..], b);
      ApplyBound(a, es[0], b);
    }
  }

  // ---------------------------------------------------------------- some script is as short

  lemma {:induction false} ScriptAppend(a: string, es: seq<Edit>, b: string, fs: seq<Edit>, c: string)
    requires Transforms(a, es, b) && Transforms(b, fs, c)
    ensures Transforms(a, es + fs, c)
    decreases |es|
  {
    hide CanApply, ApplyEdit;
    if es == [] {
      assert es + fs == fs;
    } else {
      ScriptAppend(ApplyEdit(a, es[0]), es[1..], b, fs, c);
      assert (es + fs)[1..] == es[1..] + fs;
    }
  }

  lemma LiftOne(a: string, e: Edit, x: char)
    requires CanApply(a, e)
    ensures CanApply(a + [x], e) && ApplyEdit(a + [x], e) == ApplyEdit(a, e) + [x]
  {
    assert (a + [x])[..e.pos] == a[..e.pos] && (a + [x])[e.pos..] == a[e.pos..] + [x];
    if !e.Insert? {
      assert (a + [x])[e.pos + 1..] == a[e.pos + 1..] + [x];
    }
  }

  /** A script never touches what follows the string it was made for. */
  lemma {:induction false} ScriptLift(a: string, es: seq<Edit>, b: string, x: char)
    requires Transforms(a, es, b)
    ensures Transforms(a + [x], es, b + [x])
    decreases |es|
  {
    hide CanApply, ApplyEdit;
    if es != [] {
      LiftOne(a, es[0], x);
      ScriptLift(ApplyEdit(a, es[0]), es[1..], b, x);
    }
  }

  lemma EditFirst(a: string, e: Edit, es: seq<Edit>, b: string)
    requires CanApply(a, e) && Transforms(ApplyEdit(a, e), es, b)
    ensures Transforms(a, [e] + es, b)
  {
    assert ([e] + es)[1..] == es;
  }

  lemma EditLast(a: string, es: seq<Edit>, b: string, e: Edit)
    requires Transforms(a, es, b) && CanApply(b, e)
    ensures Transforms(a, es + [e], ApplyEdit(b, e))
  {
    EditFirst(b, e, [], ApplyEdit(b, e));
    assert [e] + [] == [e];
    ScriptAppend(a, es, b, [e], ApplyEdit(b, e));
  }

  lemma {:induction false} ShortestScript(a: string, b: string) returns (es: seq<Edit>)
    ensures Transforms(a, es, b) && |es| == Lev(a, b)
    decreases |a| + |b|
  {
    hide Transforms, Lev, CanApply, ApplyEdit;
    LevUnfold(a, b);
    if a == "" && b == "" {
      es := [];
      EmptyScript(a);
    } else if a != "" && (b == "" || Lev(a, b) == Lev(Init(a), b) + 1) {
      es := ShortestScript(Init(a), b);
      LevEmpty(Init(a));
      var e := DropLast(a);
      EditFirst(a, e, es, b);
      es := [e] + es;
    } else if a == "" || Lev(a, b) == Lev(a, Init(b)) + 1 {
      es := ShortestScript(a, Init(b));
      LevEmpty(Init(b));
      var e := AddLast(b);
      EditLast(a, es, Init(b), e);
      es := es + [e];
    } else {
      es := ShortestScript(Init(a), Init(b));
      ScriptLift(Init(a), es, Init(b), Last(a));
      assert Init(a) + [Last(a)] == a && Init(b) + [Last(b)] == b;
      if Last(a) != Last(b) {
        var e := ChangeLast(b, Last(a));
        EditLast(a, es, Init(b) + [Last(a)], e);
        es := es + [e];
      }
    }
  }

  lemma DropLast(a: string) returns (e: Edit)
    requires a != ""
    ensures CanApply(a, e) && ApplyEdit(a, e) == Init(a)
  {
    e := Delete(|a| - 1);
  }

  lemma AddLast(b: string) returns (e: Edit)
    requires b != ""
    ensures CanApply(Init(b), e) && ApplyEdit(Init(b), e) == b
  {
    e := Insert(|b| - 1, Last(b));
  }

  lemma ChangeLast(b: string, x: char) returns (e: Edit)
    requires b != ""
    ensures CanApply(Init(b) + [x], e) && ApplyEdit(Init(b) + [x], e) == b
  {
    e := Substitute(|b| - 1, Last(b));
    assert (Init(b) + [x])[..|b| - 1] == Init(b);
  }

  lemma EmptyScript(a: string)
    ensures Transforms(a, [], a)
  {
  }

  lemma LevIsEditDistance(a: string, b: string)
    ensures IsEditDistance(a, b, Lev(a, b))
  {
    var es := ShortestScript(a, b);
    forall es | Transforms(a, es, b) ensures Lev(a, b) <= |es| {
      NoShorterScript(a, es, b);
    }
  }

  // ---------------------------------------------------------------- a metric

  lemma Unique(a: string, b: string, d: nat)
    requires IsEditDistance(a, b, d)
    ensures d == Lev(a, b)
  {
    LevIsEditDistance(a, b);
  }

  lemma {:induction false} LevSymmetric(a: string, b: string)
    ensures Lev(a, b) == Lev(b, a)
    decreases |a| + |b|
  {
    if a != "" && b != "" {
      LevSymmetric(Init(a), b);
      LevSymmetric(a, Init(b));
      LevSymmetric(Init(a), Init(b));
    }
  }

  /** Edit distance is a metric: zero exactly on equal strings, symmetric, and subject to the triangle inequality. */
  lemma EditDistanceIsMetric(a: string, b: string, c: string, ab: nat, ba: nat, bc: nat, ac: nat)
    ensures IsEditDistance(a, b, ab) ==> (ab == 0 <==> a == b)
    ensures IsEditDistance(a, b, ab) && IsEditDistance(b, a, ba) ==> ab == ba
    ensures IsEditDistance(a, b, ab) && IsEditDistance(b, c, bc) && IsEditDistance(a, c, ac) ==> ac <= ab + bc
  {
    hide Lev;
    LevSymmetric(a, b);
    LevOfSelf(a);
    if IsEditDistance(a, b, ab) {
      Unique(a, b, ab);
      var es :| Transforms(a, es, b) && |es| == ab;
      if IsEditDistance(b, c, bc) {
        var fs :| Transforms(b, fs, c) && |fs| == bc;
        ScriptAppend(a, es, b, fs, c);
      }
    }
    if IsEditDistance(b, a, ba) {
      Unique(b, a, ba);
    }
  }
}
