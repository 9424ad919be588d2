/**
 The shell's tokenizer for statement completeness. Quoted text and comments emit no
 token; a block comment's terminator is searched from its opening star.
 */
module SqlLexer {
  import opened Common
  import opened ReadState

  // ---------------------------------------------------------------- characters

  predicate IsAsciiWhitespace(c: char) { c == ' ' || c == '\t' || c == '\n' || c == '\r' || c == 12 as char }

  predicate IsAlpha(c: char) { 'a' <= c <= 'z' || 'A' <= c <= 'Z' }

  predicate IsWordChar(c: char) { IsAlpha(c) || '0' <= c <= '9' || c == '_' }

  predicate IsQuote(c: char) { c == '\'' || c == '"' || c == '`' || c == '[' }

  function Closer(c: char): char { if c == '[' then ']' else c }

  function Upper(s: string): string
  {
    if s == "" then ""
    else [if 'a' <= s[0] <= 'z' then (s[0] as int - 32) as char else s[0]] + Upper(s[1..])
  }

  function Classify(word: string): Token
  {
    var w := Upper(word);
    if w == "EXPLAIN" then TkExplain
    else if w == "CREATE" then TkCreate
    else if w == "TEMP" || w == "TEMPORARY" then TkTemp
    else if w == "TRIGGER" then TkTrigger
    else if w == "END" then TkEnd
    else TkOther
  }

  // ---------------------------------------------------------------- skipping

  /** What follows the first `c`; `None` when there is none. */
  function After(s: string, c: char): (r: Option<string>)
    ensures r.Some? ==> |r.value| < |s|
  {
    if s == "" then None else if s[0] == c then Some(s[1..]) else After(s[1..], c)
  }

  /** What follows the first star-slash, given whether the character before `s` was a star. */
  function AfterBlock(s: string, sawStar: bool): (r: Option<string>)
    ensures r.Some? ==> |r.value| < |s|
    decreases |s|
  {
    if s == "" then None
    else if sawStar && s[0] == '/' then Some(s[1..])
    else AfterBlock(s[1..], s[0] == '*')
  }

  function OrEmpty(o: Option<string>): string { if o.None? then "" else o.value }

  function WordLength(s: string): (n: nat)
    ensures n <= |s|
  {
    if s == "" || !IsWordChar(s[0]) then 0 else 1 + WordLength(s[1..])
  }

  // ---------------------------------------------------------------- tokens

  datatype Kind = Quoted(closer: char) | LineComment | BlockComment | Word | Single(token: Token)

  predicate StartsWith(s: string, c: char) { s != "" && s[0] == c }

  /** What a character followed by `rest` begins. */
  function KindOf(c: char, rest: string): Kind
  {
    if IsQuote(c) then Quoted(Closer(c))
    else if c == '-' && StartsWith(rest, '-') then LineComment
    else if c == '/' && StartsWith(rest, '*') then BlockComment
    else if c == ';' then Single(TkSemi)
    else if IsAsciiWhitespace(c) then Single(TkWhitespace)
    else if IsAlpha(c) || c == '_' then Word
    else Single(TkOther)
  }

  /** The text an unfinished token or comment swallows is `None`. */
  function Rest(s: string): (r: Option<string>)
    requires s != ""
    ensures r.Some? ==> |r.value| < |s|
  {
    match KindOf(s[0], s[1..])
    case Quoted(closer) => After(s[1..], closer)
    case LineComment => After(s[2..], '\n')
    case BlockComment => AfterBlock(s[1..], false)
    case Word => Some(s[1 + WordLength(s[1..])..])
    case Single(_) => Some(s[1..])
  }

  function Emitted(s: string): seq<Token>
    requires s != ""
  {
    match KindOf(s[0], s[1..])
    case Word => [Classify(s[..1 + WordLength(s[1..])])]
    case Single(t) => [t]
    case _ => []
  }

  function Tokens(s: string): seq<Token>
    decreases |s|
  {
    if s == "" then [] else Emitted(s) + (if Rest(s).None? then [] else Tokens(Rest(s).value))
  }

  function Process(state: State, sql: string): State
  {
    Run(state, Tokens(sql))
  }

  // ---------------------------------------------------------------- the tokenizer

  class Tokenizer {
    var chars: string

    constructor (sql: string)
      ensures chars == sql
    {
      chars := sql;
    }

    /** `by_ref().take_while_inclusive(|ch| ch != c)`, and `find(|ch| ch == c)`. */
    method SkipPast(c: char)
      modifies this
      ensures chars == OrEmpty(After(old(chars), c))
    {
      var found := false;
      while chars != "" && !found
        invariant found ==> After(old(chars), c) == Some(chars)
        invariant !found ==> After(old(chars), c) == After(chars, c)
        decreases |chars|
      {
        found := chars[0] == c;
        chars := chars[1..];
      }
    }

    method SkipBlock()
      modifies this
      ensures chars == OrEmpty(AfterBlock(old(chars), false))
    {
      var sawStar, found := false, false;
      while chars != "" && !found
        invariant found ==> AfterBlock(old(chars), false) == Some(chars)
        invariant !found ==> AfterBlock(old(chars), false) == AfterBlock(chars, sawStar)
        decreases |chars|
      {
        found := sawStar && chars[0] == '/';
        sawStar := chars[0] == '*';
        chars := chars[1..];
      }
    }

    method ReadKeyword(first: char) returns (t: Token)
      modifies this
      ensures t == Classify([first] + old(chars)[..WordLength(old(chars))])
      ensures chars == old(chars)[WordLength(old(chars))..]
    {
      var word := [first];
      ghost var n := 0;
      while chars != "" && IsWordChar(chars[0])
        invariant 0 <= n <= |old(chars)| && chars == old(chars)[n..]
        invariant n + WordLength(chars) == WordLength(old(chars))
        invariant word == [first] + old(chars)[..n]
        decreases |chars|
      {
        word := word + [chars[0]];
        chars := chars[1..];
        n := n + 1;
      }
      t := Classify(word);
    }

    /** The next token; the tokens still to come are the rest of the original stream. */
    method Next() returns (t: Option<Token>)
      modifies this
      ensures t.None? ==> Tokens(old(chars)) == [] && chars == ""
      ensures t.Some? ==> Tokens(old(chars)) == [t.value] + Tokens(chars) && |chars| < |old(chars)|
    {
      while chars != ""
        invariant Tokens(chars) == Tokens(old(chars))
        invariant |chars| <= |old(chars)|
        decreases |chars|
      {
        ghost var s := chars;
        var c := chars[0];
        chars := chars[1..];
        match KindOf(c, chars) {
          case Quoted(closer) =>
            SkipPast(closer);
            SilentTokens(s);
          case LineComment =>
            chars := chars[1..];
            SkipPast('\n');
            SilentTokens(s);
          case BlockComment =>
            SkipBlock();
            SilentTokens(s);
          case Word =>
            var k := ReadKeyword(c);
            assert s[..1 + WordLength(s[1..])] == [c] + s[1..][..WordLength(s[1..])];
            return Some(k);
          case Single(k) =>
            return Some(k);
        }
      }
      t := None;
    }
  }

  lemma SilentTokens(s: string)
    requires s != "" && Emitted(s) == []
    ensures Tokens(s) == Tokens(OrEmpty(Rest(s)))
  {
    assert [] + Tokens(OrEmpty(Rest(s))) == Tokens(OrEmpty(Rest(s)));
  }

  /** `ReadState::process`: fold the transition over a fresh tokenizer. */
  method ProcessText(state: State, sql: string) returns (r: State)
    ensures r == Process(state, sql)
  {
    r := state;
    var tokenizer := new Tokenizer(sql);
    var t := tokenizer.Next();
    ghost var pending := Tokens(sql);
    while t.Some?
      invariant pending == if t.Some? then [t.value] + Tokens(tokenizer.chars) else []
      invariant Run(r, pending) == Process(state, sql)
      decreases |tokenizer.chars|, t.Some?
    {
      r := Transition(r, t.value);
      pending := Tokens(tokenizer.chars);
      t := tokenizer.Next();
    }
  }
}
