/** The shell's quoting, its SQL literals, and the parser for parameter values. */
module SqlLiteral {
  import opened Common
  import opened Decimal
  import opened Text
  import opened ReadState
  import opened SqlLexer
  import opened SqlLines
  import opened SqlPieces

  // ---------------------------------------------------------------- quoting

  function Doubled(s: string, q: char): string
  {
    if s == "" then "" else (if s[0] == q then [q, q] else [s[0]]) + Doubled(s[1..], q)
  }

  function QuotedText(s: string, q: char): string
  {
    [q] + Doubled(s, q) + [q]
  }

  lemma {:induction false} DoubledSnoc(s: string, q: char, c: char)
    ensures Doubled(s + [c], q) == Doubled(s, q) + if c == q then [q, q] else [c]
  {
    if s == "" {
      assert s + [c] == [c] && [c][1..] == "";
    } else {
      DoubledSnoc(s[1..], q, c);
      assert (s + [c])[1..] == s[1..] + [c];
    }
  }

  method QuoteIdent(s: string) returns (out: string)
    ensures out == QuotedText(s, '"')
  {
    out := "\"";
    for i := 0 to |s|
      invariant out == "\"" + Doubled(s[..i], '"')
    {
      assert s[..i + 1] == s[..i] + [s[i]];
      DoubledSnoc(s[..i], '"', s[i]);
      if s[i] == '"' {
        out := out + "\"";
      }
      out := out + [s[i]];
    }
    assert s[..|s|] == s;
    out := out + "\"";
  }

  method SqlQuoteString(s: string) returns (out: string)
    ensures out == QuotedText(s, '\'')
  {
    out := "'";
    for i := 0 to |s|
      invariant out == "'" + Doubled(s[..i], '\'')
    {
      assert s[..i + 1] == s[..i] + [s[i]];
      DoubledSnoc(s[..i], '\'', s[i]);
      if s[i] == '\'' {
        out := out + "'";
      }
      out := out + [s[i]];
    }
    assert s[..|s|] == s;
    out := out + "'";
  }

  /** A quoted text is silent: whatever it contains, the tokenizer sees only what follows. */
  lemma QuotedIsSilent(s: string, q: char, r: string)
    requires q == '\'' || q == '"'
    ensures Tokens(QuotedText(s, q) + r) == Tokens(r)
  {
    assert QuotedText(s, q) + r == [q] + (Doubled(s, q) + [q] + r);
    OpenQuote(Doubled(s, q) + [q] + r, q);
    InsideQuote(s, q, r);
  }

  lemma OpenQuote(t: string, q: char)
    requires q == '\'' || q == '"'
    ensures Tokens([q] + t) == Tokens(OrEmpty(After(t, q)))
  {
    assert ([q] + t)[1..] == t;
    SilentTokens([q] + t);
  }

  lemma {:induction false} InsideQuote(s: string, q: char, r: string)
    requires q == '\'' || q == '"'
    ensures Tokens(OrEmpty(After(Doubled(s, q) + [q] + r, q))) == Tokens(r)
    decreases |s|
  {
    hide Tokens;
    var t := Doubled(s, q) + [q] + r;
    if s == "" {
      assert t == [q] + r && t[1..] == r;
    } else {
      var u := Doubled(s[1..], q) + [q] + r;
      InsideQuote(s[1..], q, r);
      if s[0] == q {
        assert t == [q, q] + u && t[1..] == [q] + u;
        OpenQuote(u, q);
      } else {
        assert t == [s[0]] + u && t[1..] == u;
      }
    }
  }

  /** Inside any statement, a quoted text can be replaced by any other without changing its completeness. */
  lemma QuotedInContext(p: string, s: string, q: char, r: string)
    requires (q == '\'' || q == '"') && Closed(p) && !InLineComment(p)
    ensures Tokens(p + QuotedText(s, q) + r) == Tokens(p) + Tokens(r)
  {
    assert p + QuotedText(s, q) + r == p + (QuotedText(s, q) + r);
    SplitAtTop(p, QuotedText(s, q) + r);
    QuotedIsSilent(s, q, r);
  }

  // ---------------------------------------------------------------- literals

  // A float is kept as the text it was parsed from.
  datatype Value = Null | Integer(i: int64) | Float(text: string) | Text(s: string) | Blob(b: seq<byte>)

  const HEX: string := "0123456789abcdef"

  function Hex(b: seq<byte>): string
  {
    if b == [] then "" else [HEX[b[0] / 16], HEX[b[0] % 16]] + Hex(b[1..])
  }

  function Literal(v: Value): string
  {
    match v
    case Null => "NULL"
    case Integer(i) => IntToDecimal(i)
    case Float(text) => text
    case Text(s) => QuotedText(s, '\'')
    case Blob(b) => "X'" + Hex(b) + "'"
  }

  lemma {:induction false} HexSnoc(b: seq<byte>, x: byte)
    ensures Hex(b + [x]) == Hex(b) + [HEX[x / 16], HEX[x % 16]]
  {
    if b == [] {
      assert b + [x] == [x] && [x][1..] == [];
    } else {
      HexSnoc(b[1..], x);
      assert (b + [x])[1..] == b[1..] + [x];
    }
  }

  method WriteSqlValue(out: string, v: Value) returns (r: string)
    ensures r == out + Literal(v)
  {
    match v {
      case Null => r := out + "NULL";
      case Integer(i) => r := out + IntToDecimal(i);
      case Float(text) => r := out + text;
      case Text(s) =>
        var lit := "'";
        var i := 0;
        while i < |s|
          invariant 0 <= i <= |s| && lit == "'" + Doubled(s[..i], '\'')
        {
          assert s[..i + 1] == s[..i] + [s[i]];
          DoubledSnoc(s[..i], '\'', s[i]);
          lit := lit + if s[i] == '\'' then "''" else [s[i]];
          i := i + 1;
        }
        assert s[..|s|] == s;
        r := out + (lit + "'");
      case Blob(b) =>
        var lit := "X'";
        for i := 0 to |b|
          invariant lit == "X'" + Hex(b[..i])
        {
          assert b[..i + 1] == b[..i] + [b[i]];
          HexSnoc(b[..i], b[i]);
          lit := lit + [HEX[b[i] / 16], HEX[b[i] % 16]];
        }
        assert b[..|b|] == b;
        r := out + (lit + "'");
    }
  }

  // ---------------------------------------------------------------- parsing

  function Nibble(c: char): Option<nat>
  {
    if '0' <= c <= '9' then Some(c as int - '0' as int)
    else if 'a' <= c <= 'f' then Some(10 + (c as int - 'a' as int))
    else if 'A' <= c <= 'F' then Some(10 + (c as int - 'A' as int))
    else None
  }

  /** Pairs of hex digits; `None` for an odd number of them or for any other character. */
  function ParseHex(s: string): Option<seq<byte>>
  {
    if s == "" then Some([])
    else if |s| == 1 || Nibble(s[0]).None? || Nibble(s[1]).None? then None
    else
      match ParseHex(s[2..])
      case None => None
      case Some(rest) => Some([16 * Nibble(s[0]).value + Nibble(s[1]).value] + rest)
  }

  method ParseHexBlob(hex: string) returns (r: Option<seq<byte>>)
    ensures r == ParseHex(hex)
  {
    if |hex| % 2 != 0 {
      OddHex(hex);
      return None;
    }
    var out: seq<byte> := [];
    var i := 0;
    assert hex[0..] == hex && forall b: seq<byte> :: [] + b == b;
    while i < |hex|
      invariant 0 <= i <= |hex| && i % 2 == 0
      invariant ParseHex(hex) == match ParseHex(hex[i..]) case None => None case Some(rest) => Some(out + rest)
    {
      var h, l := Nibble(hex[i]), Nibble(hex[i + 1]);
      if h.None? || l.None? {
        return None;
      }
      assert hex[i..][2..] == hex[i + 2..];
      ghost var rest := ParseHex(hex[i + 2..]);
      var byte := 16 * h.value + l.value;
      assert rest.Some? ==> out + ([byte] + rest.value) == (out + [byte]) + rest.value;
      out := out + [byte];
      i := i + 2;
    }
    assert out + [] == out;
    r := Some(out);
  }

  lemma {:induction false} OddHex(s: string)
    requires |s| % 2 != 0
    ensures ParseHex(s).None?
    decreases |s|
  {
    if |s| > 1 {
      OddHex(s[2..]);
    }
  }

  function StripPrefix(s: string, p: string): Option<string>
  {
    if p <= s then Some(s[|p|..]) else None
  }

  /** The text between a prefix and a final quote. */
  function Between(s: string, p: string): Option<string>
  {
    match StripPrefix(s, p)
    case None => None
    case Some(t) => if t != "" && t[|t| - 1] == '\'' then Some(t[..|t| - 1]) else None
  }

  /** `s.replace("''", "'")`, left to right. */
  function ReplacePairs(s: string): string
    decreases |s|
  {
    if s == "" then ""
    else if |s| >= 2 && s[0] == '\'' && s[1] == '\'' then "'" + ReplacePairs(s[2..])
    else [s[0]] + ReplacePairs(s[1..])
  }

  function Unsigned(s: string): string { if s != "" && (s[0] == '+' || s[0] == '-') then s[1..] else s }

  /** The decimal floats `str::parse::<f64>` accepts: digits with at most one point and an optional exponent. */
  predicate IsFloat(s: string)
  {
    var u := Unsigned(s);
    exists m: nat ::
      && m <= |u|
      && IsMantissa(u[..m])
      && (m == |u| || ((u[m] == 'e' || u[m] == 'E') && Unsigned(u[m + 1..]) != "" && AllDigits(Unsigned(u[m + 1..]))))
  }

  predicate IsMantissa(s: string)
  {
    exists p: nat ::
      && p <= |s|
      && AllDigits(s[..p])
      && (if p == |s| then s != "" else s[p] == '.' && AllDigits(s[p + 1..]) && |s| > 1)
  }

  function ParseParameterValue(value: string): Option<Value>
  {
    var v := Trim(value);
    if Upper(v) == "NULL" then Some(Null)
    else if ParseI64(v).Some? then Some(Integer(ParseI64(v).value))
    else if ('.' in v || 'e' in v || 'E' in v) && IsFloat(v) then Some(Float(v))
    else if Between(v, "x'").Some? || Between(v, "X'").Some? then
      var hex := if Between(v, "x'").Some? then Between(v, "x'").value else Between(v, "X'").value;
      (match ParseHex(hex)
       case None => None
       case Some(b) => Some(Blob(b)))
    else if Between(v, "'").Some? then Some(Text(ReplacePairs(Between(v, "'").value)))
    else Some(Text(v))
  }

  // ---------------------------------------------------------------- round trip

  lemma {:induction false} PairsUndoDoubling(s: string)
    ensures ReplacePairs(Doubled(s, '\'')) == s
  {
    if s != "" {
      var d, rest := Doubled(s, '\''), Doubled(s[1..], '\'');
      PairsUndoDoubling(s[1..]);
      if s[0] == '\'' {
        assert d[2..] == rest;
      } else {
        assert d[0] == s[0] && d[1..] == rest;
      }
    }
  }

  lemma {:induction false} HexRoundTrip(b: seq<byte>)
    ensures ParseHex(Hex(b)) == Some(b)
  {
    if b != [] {
      HexRoundTrip(b[1..]);
      assert Hex(b)[2..] == Hex(b[1..]);
      NibbleOfHex(b[0] / 16);
      NibbleOfHex(b[0] % 16);
      assert [b[0]] + b[1..] == b;
    }
  }

  lemma NibbleOfHex(n: nat)
    requires n < 16
    ensures Nibble(HEX[n]) == Some(n)
  {
  }

  lemma TrimNothing(s: string)
    requires s != "" && !IsWhitespace(s[0]) && !IsWhitespace(s[|s| - 1])
    ensures Trim(s) == s
  {
  }

  lemma MantissaStart(s: string)
    requires IsMantissa(s)
    ensures s != "" && (IsDigit(s[0]) || s[0] == '.')
  {
    var p: nat :| p <= |s| && AllDigits(s[..p]) && (if p == |s| then s != "" else s[p] == '.' && AllDigits(s[p + 1..]) && |s| > 1);
    assert p > 0 ==> s[..p][0] == s[0];
  }

  lemma FloatStart(s: string)
    requires IsFloat(s)
    ensures s != "" && (IsDigit(s[0]) || s[0] == '.' || s[0] == '+' || s[0] == '-')
  {
    var u := Unsigned(s);
    var m: nat :| m <= |u| && IsMantissa(u[..m]) &&
                  (m == |u| || ((u[m] == 'e' || u[m] == 'E') && Unsigned(u[m + 1..]) != "" && AllDigits(Unsigned(u[m + 1..]))));
    MantissaStart(u[..m]);
  }

  lemma NotANumber(v: string)
    requires v != "" && !IsDigit(v[0]) && v[0] != '+' && v[0] != '-' && v[0] != '.'
    ensures ParseI64(v).None? && !IsFloat(v)
  {
    if IsFloat(v) {
      FloatStart(v);
    }
  }

  lemma TextRoundTrip(s: string)
    ensures ParseParameterValue(QuotedText(s, '\'')) == Some(Text(s))
  {
    hide IsFloat, ParseI64, ReplacePairs, ParseHex;
    var lit := QuotedText(s, '\'');
    TrimNothing(lit);
    NotANumber(lit);
    assert Upper(lit)[0] == '\'';
    assert lit[1..][..|lit| - 2] == Doubled(s, '\'');
    PairsUndoDoubling(s);
  }

  lemma BlobRoundTrip(b: seq<byte>)
    ensures ParseParameterValue("X'" + Hex(b) + "'") == Some(Blob(b))
  {
    hide IsFloat, ParseI64, ParseHex, Hex;
    var lit := "X'" + Hex(b) + "'";
    TrimNothing(lit);
    NotANumber(lit);
    assert Upper(lit)[0] == 'X';
    assert lit[2..][..|lit| - 3] == Hex(b);
    HexRoundTrip(b);
  }

  lemma IntegerRoundTrip(i: int64)
    ensures ParseParameterValue(IntToDecimal(i)) == Some(Integer(i))
  {
    hide IsFloat, ParseI64, ParseHex;
    var lit := IntToDecimal(i);
    ParseI64RoundTrip(i);
    assert lit[0] == '-' || IsDigit(lit[0]);
    assert IsDigit(lit[|lit| - 1]);
    TrimNothing(lit);
    assert Upper(lit)[0] == lit[0];
  }

  /** The parser undoes the printer on every null, integer, text and blob. */
  lemma LiteralRoundTrip(v: Value)
    requires !v.Float?
    ensures ParseParameterValue(Literal(v)) == Some(v)
  {
    match v
    case Null => assert Trim("NULL") == "NULL";
    case Integer(i) => IntegerRoundTrip(i);
    case Text(s) => TextRoundTrip(s);
    case Blob(b) => BlobRoundTrip(b);
  }

  predicate LowerHex(c: char) { '0' <= c <= '9' || 'a' <= c <= 'f' }

  /** Blob literals are lower-case digits, two for each byte. */
  lemma {:induction false} HexShape(b: seq<byte>)
    ensures |Hex(b)| == 2 * |b| && forall c :: c in Hex(b) ==> LowerHex(c)
  {
    hide LowerHex;
    if b != [] {
      HexShape(b[1..]);
      NibbleShape(b[0] / 16);
      NibbleShape(b[0] % 16);
    }
  }

  lemma NibbleShape(n: int)
    requires 0 <= n < 16
    ensures LowerHex(HEX[n])
  {
  }

  // ---------------------------------------------------------------- what other texts parse to

  /** Blanks around a value do not matter. */
  lemma BlanksIgnored(a: string, v: string, b: string)
    requires AllBlank(a) && AllBlank(b)
    ensures ParseParameterValue(a + v + b) == ParseParameterValue(v)
  {
    hide Trim, IsFloat, ParseI64, ParseHex, ReplacePairs, Upper;
    TrimIgnoresBlanks(a, v, b);
  }

  lemma NumberChars(v: string)
    requires ParseI64(v).Some?
    ensures v != "" && (IsDigit(v[0]) || v[0] == '+' || v[0] == '-') && '.' !in v && 'e' !in v && 'E' !in v
  {
    var digits := if v[0] == '+' || v[0] == '-' then v[1..] else v;
    var off := |v| - |digits|;
    forall k | off <= k < |v| ensures IsDigit(v[k]) {
      assert v[k] == digits[k - off];
    }
  }

  /** Null is spelled NULL, in any case, and nothing else is null. */
  lemma NullIff(v: string)
    ensures ParseParameterValue(v) == Some(Null) <==> Spells(Trim(v), "NULL")
  {
    hide Trim, IsFloat, ParseI64, ParseHex, ReplacePairs, Upper;
    UpperSpells(Trim(v), "NULL");
  }

  /** Integers are exactly the texts the integer parser takes. */
  lemma IntegerIff(v: string, n: int64)
    ensures ParseParameterValue(v) == Some(Integer(n)) <==> ParseI64(Trim(v)) == Some(n)
  {
    hide Trim, IsFloat, ParseI64, ParseHex, ReplacePairs, Upper;
    var t := Trim(v);
    UpperSpells(t, "NULL");
    if ParseI64(t).Some? {
      NumberChars(t);
    }
  }

  /** Floats are exactly the decimal float texts with a point or an exponent. */
  lemma FloatIff(v: string, t: string)
    ensures ParseParameterValue(v) == Some(Float(t)) <==> t == Trim(v) && IsFloat(t) && ('.' in t || 'e' in t || 'E' in t)
  {
    hide Trim, IsFloat, ParseI64, ParseHex, ReplacePairs, Upper;
    var w := Trim(v);
    UpperSpells(w, "NULL");
    if ParseI64(w).Some? {
      NumberChars(w);
    }
    if IsFloat(w) {
      FloatStart(w);
    }
  }

  predicate Sign(s: string) { s == "" || s == "+" || s == "-" }

  /** An exponent: nothing, or `e`, a sign and digits. */
  ghost predicate Exponent(s: string)
  {
    s == "" || exists m, sign, digits :: (m == "e" || m == "E") && Sign(sign) && digits != "" && AllDigits(digits) && s == m + sign + digits
  }

  lemma ExponentRead(s: string)
    requires Exponent(s) && s != ""
    ensures (s[0] == 'e' || s[0] == 'E') && Unsigned(s[1..]) != "" && AllDigits(Unsigned(s[1..]))
  {
    var m, sign, digits :| (m == "e" || m == "E") && Sign(sign) && digits != "" && AllDigits(digits) && s == m + sign + digits;
    assert s[1..] == sign + digits;
    assert IsDigit(digits[0]);
    assert sign == "" ==> sign + digits == digits;
    assert sign != "" ==> (sign + digits)[1..] == digits;
  }

  lemma DecimalIsFloat(sign: string, mantissa: string, exponent: string)
    requires Sign(sign) && IsMantissa(mantissa) && Exponent(exponent)
    ensures IsFloat(sign + mantissa + exponent)
  {
    hide IsMantissa;
    MantissaStart(mantissa);
    var s := sign + mantissa + exponent;
    var u := mantissa + exponent;
    assert sign == "" ==> s == u;
    assert sign != "" ==> s[1..] == u;
    assert Unsigned(s) == u;
    assert u[..|mantissa|] == mantissa;
    if exponent != "" {
      ExponentRead(exponent);
      assert u[|mantissa|] == exponent[0] && u[|mantissa| + 1..] == exponent[1..];
    }
  }

  /** Digits with a point among them, signed and scaled or not, are floats. */
  lemma PointIsFloat(sign: string, a: string, b: string, exponent: string)
    requires Sign(sign) && AllDigits(a) && AllDigits(b) && a + b != "" && Exponent(exponent)
    ensures IsFloat(sign + (a + "." + b) + exponent)
  {
    var m := a + "." + b;
    assert m[..|a|] == a && m[|a|] == '.' && m[|a| + 1..] == b;
    assert IsMantissa(m);
    DecimalIsFloat(sign, m, exponent);
  }

  /** So are scaled whole numbers. */
  lemma ScaledIsFloat(sign: string, a: string, exponent: string)
    requires Sign(sign) && a != "" && AllDigits(a) && Exponent(exponent)
    ensures IsFloat(sign + a + exponent)
  {
    assert a[..|a|] == a;
    assert IsMantissa(a);
    DecimalIsFloat(sign, a, exponent);
  }

  /** What no quote ends is its own text unless it is null or a number, which nothing is that starts like a word. */
  lemma UnquotedIsText(v: string)
    requires v != "" && !IsWhitespace(v[0]) && !IsWhitespace(v[|v| - 1]) && v[|v| - 1] != '\''
    ensures ParseParameterValue(v) == Some(Text(v))
       <==> !Spells(v, "NULL") && ParseI64(v).None? && !(IsFloat(v) && ('.' in v || 'e' in v || 'E' in v))
    ensures !IsDigit(v[0]) && v[0] != '+' && v[0] != '-' && v[0] != '.' && !Spells(v, "NULL") ==>
              ParseParameterValue(v) == Some(Text(v))
  {
    hide IsFloat, ParseI64, ParseHex, ReplacePairs, Upper, Spells;
    TrimNothing(v);
    if !IsDigit(v[0]) && v[0] != '+' && v[0] != '-' && v[0] != '.' {
      NotANumber(v);
    }
    UpperSpells(v, "NULL");
    assert |v| >= 2 ==> v[2..] == "" || v[2..][|v[2..]| - 1] == v[|v| - 1];
  }

  /** A blob literal, in either case of its letter, is its bytes, or is refused when the digits are not pairs of hexadecimal ones. */
  lemma BlobLiteralParses(x: char, digits: string)
    requires x == 'x' || x == 'X'
    ensures ParseParameterValue([x] + "'" + digits + "'")
         == match ParseHex(digits) case None => None case Some(b) => Some(Blob(b))
  {
    hide IsFloat, ParseI64, ParseHex, ReplacePairs, Upper, Spells;
    var v := [x] + "'" + digits + "'";
    TrimNothing(v);
    NotANumber(v);
    UpperSpells(v, "NULL");
    assert v[1] == '\'';
    NotNull(v);
    assert v[2..] == digits + "'" && v[2..][..|v[2..]| - 1] == digits;
    assert v[..2] == [x] + "'";
  }

  lemma NotNull(v: string)
    requires |v| >= 2 && v[1] == '\''
    ensures !Spells(v, "NULL")
  {
  }

  /** Pairs of hexadecimal digits, either case, and nothing else, make a blob. */
  lemma {:induction false} HexIff(s: string)
    ensures ParseHex(s).Some? <==> |s| % 2 == 0 && forall i :: 0 <= i < |s| ==> '0' <= s[i] <= '9' || 'a' <= s[i] <= 'f' || 'A' <= s[i] <= 'F'
    ensures ParseHex(s).Some? ==> |ParseHex(s).value| * 2 == |s|
    decreases |s|
  {
    if |s| >= 2 {
      HexIff(s[2..]);
      assert forall i :: 2 <= i < |s| ==> s[i] == s[2..][i - 2];
    }
  }
}
