/** Trimming as the source language's standard library does it. */
module Text {

  /** Unicode's White_Space property. */
  predicate IsWhitespace(c: char)
  {
    var n := c as int;
    || 9 <= n <= 13 || n == 32 || n == 0x85 || n == 0xA0 || n == 0x1680 || 0x2000 <= n <= 0x200A
    || n == 0x2028 || n == 0x2029 || n == 0x202F || n == 0x205F || n == 0x3000
  }

  function TrimStart(s: string): string
  {
    if s != "" && IsWhitespace(s[0]) then TrimStart(s[1..]) else s
  }

  function TrimEnd(s: string): string
  {
    if s != "" && IsWhitespace(s[|s| - 1]) then TrimEnd(s[..|s| - 1]) else s
  }

  function Trim(s: string): string
  {
    TrimEnd(TrimStart(s))
  }

  predicate AllBlank(s: string) { forall i :: 0 <= i < |s| ==> IsWhitespace(s[i]) }

  lemma {:induction false} StartBlank(a: string, s: string)
    requires AllBlank(a)
    ensures TrimStart(a + s) == TrimStart(s)
  {
    if a == "" {
      assert a + s == s;
    } else {
      StartBlank(a[1..], s);
      assert (a + s)[1..] == a[1..] + s;
    }
  }

  lemma {:induction false} EndBlank(s: string, b: string)
    requires AllBlank(b)
    ensures TrimEnd(s + b) == TrimEnd(s)
    decreases |b|
  {
    if b == "" {
      assert s + b == s;
    } else {
      var n := |b| - 1;
      EndBlank(s, b[..n]);
      assert (s + b)[..|s + b| - 1] == s + b[..n];
    }
  }

  lemma {:induction false} StartOf(s: string, b: string)
    ensures TrimStart(s) != "" ==> TrimStart(s + b) == TrimStart(s) + b
    ensures TrimStart(s) == "" ==> AllBlank(s)
  {
    if s != "" && IsWhitespace(s[0]) {
      StartOf(s[1..], b);
      assert (s + b)[1..] == s[1..] + b;
      assert TrimStart(s) == "" ==> forall i :: 0 < i < |s| ==> s[i] == s[1..][i - 1];
    }
  }

  /** Blanks on either side do not matter. */
  lemma TrimIgnoresBlanks(a: string, s: string, b: string)
    requires AllBlank(a) && AllBlank(b)
    ensures Trim(a + s + b) == Trim(s)
  {
    assert a + s + b == a + (s + b);
    StartBlank(a, s + b);
    StartOf(s, b);
    if TrimStart(s) == "" {
      StartBlank(s, b);
      assert b + "" == b;
      StartBlank(b, "");
    } else {
      EndBlank(TrimStart(s), b);
    }
  }

  /** Trimming removes blanks from both ends, all of them, and nothing else. */
  lemma TrimShape(s: string) returns (a: string, b: string)
    ensures s == a + Trim(s) + b && AllBlank(a) && AllBlank(b)
    ensures Trim(s) != "" ==> !IsWhitespace(Trim(s)[0]) && !IsWhitespace(Trim(s)[|Trim(s)| - 1])
  {
    a := StartRemoved(s);
    b := EndRemoved(TrimStart(s));
  }

  lemma {:induction false} StartRemoved(s: string) returns (a: string)
    ensures s == a + TrimStart(s) && AllBlank(a) && (TrimStart(s) != "" ==> !IsWhitespace(TrimStart(s)[0]))
  {
    a := "";
    if s != "" && IsWhitespace(s[0]) {
      a := StartRemoved(s[1..]);
      a := [s[0]] + a;
    }
  }

  lemma {:induction false} EndRemoved(s: string) returns (b: string)
    ensures s == TrimEnd(s) + b && AllBlank(b)
    ensures TrimEnd(s) != "" ==> !IsWhitespace(TrimEnd(s)[|TrimEnd(s)| - 1]) && TrimEnd(s)[0] == s[0]
  {
    b := "";
    if s != "" && IsWhitespace(s[|s| - 1]) {
      var n := |s| - 1;
      b := EndRemoved(s[..n]);
      b := b + [s[n]];
    }
  }
}
