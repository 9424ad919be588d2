/**
 What SQL text means to the shell's tokenizer, as a grammar of pieces: every text is a run of
 names, blanks, marks, quoted texts and comments up to an unfinished end, and its tokens are theirs.
 */
module SqlPieces {
  import opened Common
  import opened ReadState
  import opened SqlLexer
  import opened SqlLines

  /** `Block` carries what stands between the opening slash and the closing star-slash. */
  datatype Piece =
    | Blank(c: char)
    | Semicolon
    | Name(w: string)
    | Mark(c: char)
    | Quote(open: char, body: string)
    | Remark(body: string)
    | Block(body: string)

  const BLANKS: set<char> := {' ', '\t', '\n', '\r', 12 as char}
  const QUOTES: map<char, char> := map['\'' := '\'', '"' := '"', '`' := '`', '[' := ']']

  predicate NameStart(c: char) { 'a' <= c <= 'z' || 'A' <= c <= 'Z' || c == '_' }

  predicate NamePart(c: char) { NameStart(c) || '0' <= c <= '9' }

  predicate WellFormed(p: Piece)
  {
    match p
    case Blank(c) => c in BLANKS
    case Semicolon => true
    case Name(w) => w != "" && NameStart(w[0]) && forall i :: 0 <= i < |w| ==> NamePart(w[i])
    case Mark(c) => c !in BLANKS && c !in QUOTES && !NameStart(c) && c != ';'
    case Quote(open, body) => open in QUOTES && QUOTES[open] !in body
    case Remark(body) => '\n' !in body
    case Block(body) => OpensBlock(body + "*/") && NoClose(body + "*")
  }

  /** A block comment's opening star may be its closing one. */
  predicate OpensBlock(s: string) { s != "" && s[0] == '*' }

  predicate NoClose(s: string) { forall i :: 0 <= i < |s| - 1 ==> !(s[i] == '*' && s[i + 1] == '/') }

  function Closing(open: char): char { if open in QUOTES then QUOTES[open] else open }

  function Text(p: Piece): string
  {
    match p
    case Blank(c) => [c]
    case Semicolon => ";"
    case Name(w) => w
    case Mark(c) => [c]
    case Quote(open, body) => [open] + body + [Closing(open)]
    case Remark(body) => "--" + body + "\n"
    case Block(body) => "/" + body + "*/"
  }

  /** What follows does not become part of the piece, nor makes a comment of it. */
  predicate Joins(p: Piece, rest: string)
  {
    match p
    case Name(_) => rest == "" || !NamePart(rest[0])
    case Mark(c) => !(c == '-' && rest != "" && rest[0] == '-') && !(c == '/' && rest != "" && rest[0] == '*')
    case _ => true
  }

  /** `w` is `keyword` in any mixture of cases, letter by letter. */
  predicate Spells(w: string, keyword: string)
  {
    |w| == |keyword| && forall i :: 0 <= i < |w| ==> w[i] == keyword[i] || LowerOf(w[i], keyword[i])
  }

  predicate LowerOf(a: char, b: char) { 'A' <= b <= 'Z' && a as int == b as int + 32 }

  function TokenOf(w: string): Token
  {
    if Spells(w, "EXPLAIN") then TkExplain
    else if Spells(w, "CREATE") then TkCreate
    else if Spells(w, "TEMP") || Spells(w, "TEMPORARY") then TkTemp
    else if Spells(w, "TRIGGER") then TkTrigger
    else if Spells(w, "END") then TkEnd
    else TkOther
  }

  function PieceTokens(p: Piece): seq<Token>
  {
    match p
    case Blank(_) => [TkWhitespace]
    case Semicolon => [TkSemi]
    case Name(w) => [TokenOf(w)]
    case Mark(_) => [TkOther]
    case _ => []
  }

  /** The pieces and then `tail`, each fit to be followed by the rest. */
  predicate Grammatical(ps: seq<Piece>, tail: string)
    decreases |ps|
  {
    ps == [] || (WellFormed(ps[0]) && Grammatical(ps[1..], tail) && Joins(ps[0], TextOf(ps[1..], tail)))
  }

  function TextOf(ps: seq<Piece>, tail: string): string
    decreases |ps|
  {
    if ps == [] then tail else Text(ps[0]) + TextOf(ps[1..], tail)
  }

  function TokensOf(ps: seq<Piece>): seq<Token>
    decreases |ps|
  {
    if ps == [] then [] else PieceTokens(ps[0]) + TokensOf(ps[1..])
  }

  /** Nothing, or a quoted text or comment that never ends. */
  predicate Unfinished(tail: string)
  {
    || tail == ""
    || (tail[0] in QUOTES && QUOTES[tail[0]] !in tail[1..])
    || (|tail| >= 2 && tail[..2] == "--" && '\n' !in tail[2..])
    || (|tail| >= 2 && tail[..2] == "/*" && NoClose(tail[1..]))
  }

  // ---------------------------------------------------------------- spelling

  lemma {:induction false} UpperSpells(w: string, keyword: string)
    requires forall i :: 0 <= i < |keyword| ==> 'A' <= keyword[i] <= 'Z'
    ensures Upper(w) == keyword <==> Spells(w, keyword)
    decreases |w|
  {
    UpperLength(w);
    if |w| == |keyword| && w != "" {
      UpperSpells(w[1..], keyword[1..]);
      var c := Upper(w)[0];
      assert Upper(w) == [c] + Upper(w[1..]) && keyword == [keyword[0]] + keyword[1..];
      assert Upper(w) == keyword <==> c == keyword[0] && Upper(w[1..]) == keyword[1..];
      assert c == keyword[0] <==> w[0] == keyword[0] || LowerOf(w[0], keyword[0]);
      assert Spells(w, keyword) <==> (w[0] == keyword[0] || LowerOf(w[0], keyword[0])) && Spells(w[1..], keyword[1..]) by {
        assert forall i :: 0 < i < |w| ==> w[i] == w[1..][i - 1] && keyword[i] == keyword[1..][i - 1];
        if Spells(w[1..], keyword[1..]) && (w[0] == keyword[0] || LowerOf(w[0], keyword[0])) {
          forall i | 0 <= i < |w| ensures w[i] == keyword[i] || LowerOf(w[i], keyword[i]) {
            if i > 0 {
              assert w[1..][i - 1] == keyword[1..][i - 1] || LowerOf(w[1..][i - 1], keyword[1..][i - 1]);
            }
          }
        }
      }
    }
  }

  lemma {:induction false} UpperLength(w: string)
    ensures |Upper(w)| == |w|
  {
    if w != "" {
      UpperLength(w[1..]);
    }
  }

  /** The tokenizer knows each keyword in any case, and no other word. */
  lemma KeywordsAnyCase(w: string)
    ensures Classify(w) == TokenOf(w)
  {
    hide Upper, Spells;
    UpperSpells(w, "EXPLAIN");
    UpperSpells(w, "CREATE");
    UpperSpells(w, "TEMP");
    UpperSpells(w, "TEMPORARY");
    UpperSpells(w, "TRIGGER");
    UpperSpells(w, "END");
  }

  // ---------------------------------------------------------------- one piece

  lemma {:induction false} AfterBody(body: string, c: char, rest: string)
    requires c !in body
    ensures After(body + [c] + rest, c) == Some(rest)
  {
    if body == "" {
      assert body + [c] + rest == [c] + rest;
    } else {
      AfterBody(body[1..], c, rest);
      assert (body + [c] + rest)[1..] == body[1..] + [c] + rest;
    }
  }

  lemma {:induction false} NeverAfter(s: string, c: char)
    requires c !in s
    ensures After(s, c) == None
  {
    if s != "" {
      NeverAfter(s[1..], c);
    }
  }

  /** The scan for star-slash passes over text without one, and remembers a trailing star. */
  lemma {:induction false} PastBlock(s: string, star: bool, rest: string)
    requires NoClose(s) && !(star && s != "" && s[0] == '/')
    ensures AfterBlock(s + rest, star) == AfterBlock(rest, if s == "" then star else s[|s| - 1] == '*')
    decreases |s|
  {
    if s == "" {
      assert s + rest == rest;
    } else {
      assert forall i :: 0 <= i < |s[1..]| ==> s[1..][i] == s[i + 1];
      PastBlock(s[1..], s[0] == '*', rest);
      assert (s + rest)[1..] == s[1..] + rest;
    }
  }

  lemma {:induction false} WholeWord(w: string, rest: string)
    requires (forall i :: 0 <= i < |w| ==> NamePart(w[i])) && (rest == "" || !NamePart(rest[0]))
    ensures WordLength(w + rest) == |w|
  {
    if w == "" {
      assert w + rest == rest;
    } else {
      WholeWord(w[1..], rest);
      assert (w + rest)[1..] == w[1..] + rest;
    }
  }

  lemma SingleLexes(p: Piece, rest: string)
    requires WellFormed(p) && Joins(p, rest) && (p.Blank? || p.Semicolon? || p.Mark?)
    ensures Tokens(Text(p) + rest) == PieceTokens(p) + Tokens(rest)
  {
    hide Tokens;
    var s := Text(p) + rest;
    TokensStep(s);
    assert s[1..] == rest;
  }

  lemma NameLexes(w: string, rest: string)
    requires WellFormed(Name(w)) && Joins(Name(w), rest)
    ensures Tokens(w + rest) == [TokenOf(w)] + Tokens(rest)
  {
    hide Tokens, Classify, TokenOf;
    var s := w + rest;
    TokensStep(s);
    assert s[1..] == w[1..] + rest;
    WholeWord(w[1..], rest);
    assert s[..|w|] == w && s[|w|..] == rest;
    KeywordsAnyCase(w);
  }

  lemma QuoteLexes(open: char, body: string, rest: string)
    requires WellFormed(Quote(open, body))
    ensures Tokens(Text(Quote(open, body)) + rest) == Tokens(rest)
  {
    hide Tokens;
    var s := Text(Quote(open, body)) + rest;
    TokensStep(s);
    assert s[1..] == body + [QUOTES[open]] + rest;
    AfterBody(body, QUOTES[open], rest);
    assert [] + Tokens(rest) == Tokens(rest);
  }

  lemma RemarkLexes(body: string, rest: string)
    requires WellFormed(Remark(body))
    ensures Tokens(Text(Remark(body)) + rest) == Tokens(rest)
  {
    hide Tokens, After, AfterBlock, WordLength, Classify;
    var s := Text(Remark(body)) + rest;
    TokensStep(s);
    assert s[0] == '-' && s[1..][0] == '-' && s[2..] == body + ['\n'] + rest;
    AfterBody(body, '\n', rest);
    assert [] + Tokens(rest) == Tokens(rest);
  }

  lemma BlockLexes(body: string, rest: string)
    requires WellFormed(Block(body))
    ensures Tokens(Text(Block(body)) + rest) == Tokens(rest)
  {
    hide Tokens, After, AfterBlock, WordLength, Classify;
    var s := Text(Block(body)) + rest;
    TokensStep(s);
    assert s[0] == '/' && s[1..][0] == (body + "*/")[0];
    assert s[1..] == (body + "*") + ("/" + rest);
    PastBlock(body + "*", false, "/" + rest);
    BlockEnds(rest);
    assert [] + Tokens(rest) == Tokens(rest);
  }

  /** A piece gives its own tokens and leaves the rest to be read afresh. */
  lemma PieceLexes(p: Piece, rest: string)
    requires WellFormed(p) && Joins(p, rest)
    ensures Tokens(Text(p) + rest) == PieceTokens(p) + Tokens(rest)
  {
    hide Tokens, WellFormed, Joins, TokenOf;
    match p {
      case Name(w) => NameLexes(w, rest);
      case Quote(open, body) =>
        QuoteLexes(open, body, rest);
        assert [] + Tokens(rest) == Tokens(rest);
      case Remark(body) =>
        RemarkLexes(body, rest);
        assert [] + Tokens(rest) == Tokens(rest);
      case Block(body) =>
        BlockLexes(body, rest);
        assert [] + Tokens(rest) == Tokens(rest);
      case _ => SingleLexes(p, rest);
    }
  }

  lemma BlockEnds(rest: string)
    ensures AfterBlock("/" + rest, true) == Some(rest)
  {
    assert ("/" + rest)[1..] == rest;
  }

  /** Whatever starts at an unfinished end, nothing comes of it. */
  lemma UnfinishedIsSilent(tail: string)
    requires Unfinished(tail)
    ensures Tokens(tail) == []
  {
    if tail != "" {
      if tail[0] in QUOTES {
        NeverAfter(tail[1..], QUOTES[tail[0]]);
      } else if tail[..2] == "--" {
        assert tail[1] == '-' && tail[0] == '-';
        NeverAfter(tail[2..], '\n');
      } else {
        assert tail[1] == '*' && tail[0] == '/';
        assert tail[1..] + "" == tail[1..];
        PastBlock(tail[1..], false, "");
      }
    }
  }

  // ---------------------------------------------------------------- whole texts

  /** The tokens of a text are those of its pieces. */
  lemma {:induction false} TextLexes(ps: seq<Piece>, tail: string)
    requires Grammatical(ps, tail) && Unfinished(tail)
    ensures Tokens(TextOf(ps, tail)) == TokensOf(ps)
    decreases |ps|
  {
    hide Tokens, Text, Joins, WellFormed, PieceTokens, Unfinished;
    if ps == [] {
      UnfinishedIsSilent(tail);
    } else {
      TextLexes(ps[1..], tail);
      PieceLexes(ps[0], TextOf(ps[1..], tail));
    }
  }

  lemma {:induction false} FirstOf(s: string, c: char) returns (i: nat)
    ensures i <= |s| && c !in s[..i] && (i < |s| ==> s[i] == c)
  {
    i := 0;
    if s != "" && s[0] != c {
      i := FirstOf(s[1..], c);
      assert s[1..][..i] == s[1..i + 1] && s[..i + 1] == [s[0]] + s[1..i + 1];
      i := i + 1;
    }
  }

  lemma {:induction false} FirstClose(s: string) returns (i: nat)
    ensures i <= |s| && NoClose(s[..i])
    ensures i < |s| ==> i > 0 && s[i - 1] == '*' && s[i] == '/'
  {
    i := 0;
    while i < |s| && !(i > 0 && s[i - 1] == '*' && s[i] == '/')
      invariant i <= |s| && NoClose(s[..i])
    {
      i := i + 1;
    }
  }

  lemma {:induction false} NameLength(s: string) returns (n: nat)
    ensures n <= |s| && (forall i :: 0 <= i < n ==> NamePart(s[i])) && (n < |s| ==> !NamePart(s[n]))
  {
    n := 0;
    while n < |s| && NamePart(s[n])
      invariant n <= |s| && forall i :: 0 <= i < n ==> NamePart(s[i])
    {
      n := n + 1;
    }
  }

  /** The piece a text begins with, unless the text is an unfinished end. */
  lemma FirstPiece(s: string) returns (p: Option<Piece>, rest: string)
    requires s != ""
    ensures p.None? ==> Unfinished(s)
    ensures p.Some? ==> WellFormed(p.value) && Joins(p.value, rest) && s == Text(p.value) + rest && |rest| < |s|
  {
    p, rest := None, "";
    if s[0] in QUOTES {
      var i := FirstOf(s[1..], QUOTES[s[0]]);
      if i < |s[1..]| {
        p, rest := Some(Quote(s[0], s[1..][..i])), s[i + 2..];
        assert s == [s[0]] + s[1..][..i] + [s[i + 1]] + s[i + 2..];
      } else {
        assert s[1..][..i] == s[1..];
      }
    } else if |s| >= 2 && s[..2] == "--" {
      var i := FirstOf(s[2..], '\n');
      if i < |s[2..]| {
        p, rest := Some(Remark(s[2..][..i])), s[i + 3..];
        assert s == s[..2] + s[2..][..i] + [s[i + 2]] + s[i + 3..];
      } else {
        assert s[2..][..i] == s[2..];
      }
    } else if |s| >= 2 && s[..2] == "/*" {
      var i := FirstClose(s[1..]);
      if i < |s[1..]| {
        var body := s[1..][..i - 1];
        p, rest := Some(Block(body)), s[i + 2..];
        assert s[i] == '*' && s[i + 1] == '/' && s[0] == '/' && s[1] == '*';
        assert body + "*" == s[1..][..i] && (body + "*/")[0] == s[1];
        assert s == "/" + body + "*/" + rest;
      } else {
        assert s[1..][..i] == s[1..];
      }
    } else if NameStart(s[0]) {
      var n := NameLength(s);
      p, rest := Some(Name(s[..n])), s[n..];
    } else {
      rest := s[1..];
      p := Some(if s[0] == ';' then Semicolon else if s[0] in BLANKS then Blank(s[0]) else Mark(s[0]));
      assert |s| >= 2 ==> s[..2] == [s[0], s[1]];
      assert s == [s[0]] + rest;
    }
  }

  /** Every text is made of pieces, up to an unfinished end. */
  lemma {:induction false} TextIsPieces(s: string) returns (ps: seq<Piece>, tail: string)
    ensures Grammatical(ps, tail) && Unfinished(tail) && TextOf(ps, tail) == s
    decreases |s|
  {
    hide WellFormed, Joins, Text, Unfinished;
    if s == "" {
      ps, tail := [], "";
      EmptyIsUnfinished();
    } else {
      var p, rest := FirstPiece(s);
      if p.None? {
        ps, tail := [], s;
      } else {
        var qs;
        qs, tail := TextIsPieces(rest);
        ps := [p.value] + qs;
        assert ps[1..] == qs;
      }
    }
  }

  lemma EmptyIsUnfinished()
    ensures Unfinished("")
  {
  }

  /** So the tokens of any text are those of its pieces. */
  lemma EveryTextLexes(s: string) returns (ps: seq<Piece>, tail: string)
    ensures Grammatical(ps, tail) && Unfinished(tail) && TextOf(ps, tail) == s && Tokens(s) == TokensOf(ps)
  {
    hide Grammatical, Unfinished, Tokens, TokensOf, TextOf;
    ps, tail := TextIsPieces(s);
    TextLexes(ps, tail);
  }

  // ---------------------------------------------------------------- triggers

  /** The tokens, blanks aside, of CREATE, any TEMP words, TRIGGER and a body. */
  predicate TriggerTokens(ts: seq<Token>, temps: nat, body: seq<Token>)
  {
    |ts| == temps + 2 + |body| && ts[0] == TkCreate && (forall i :: 1 <= i <= temps ==> ts[i] == TkTemp)
    && ts[temps + 1] == TkTrigger && ts[temps + 2..] == body
  }

  lemma {:induction false} TempsRun(ts: seq<Token>)
    requires forall i :: 0 <= i < |ts| ==> ts[i] == TkTemp
    ensures Run(Create, ts) == Create
  {
    if ts != [] {
      TempsRun(ts[1..]);
    }
  }

  /**
   A text that spells a trigger, in any case and with any blanks, quotes and comments, is complete for
   the first time exactly at the first `; END ;` after its header.
   */
  lemma TriggerTextCompletes(ps: seq<Piece>, tail: string, temps: nat, body: seq<Token>)
    requires Grammatical(ps, tail) && Unfinished(tail) && TriggerTokens(WithoutWhitespace(TokensOf(ps)), temps, body)
    requires forall i: nat :: i + 3 < |body| ==> !ClosesAt(body, i)
    ensures IsComplete(Process(Invalid, TextOf(ps, tail))) <==> |body| >= 3 && ClosesAt(body, |body| - 3)
  {
    hide Grammatical, Unfinished, Tokens, TokensOf, TextOf;
    TextLexes(ps, tail);
    var ts := WithoutWhitespace(TokensOf(ps));
    WhitespaceIsInert(Invalid, TokensOf(ps));
    NoWhitespaceLeft(TokensOf(ps));
    assert ts == [TkCreate] + ts[1..temps + 1] + [TkTrigger] + body;
    RunAppend(Invalid, [TkCreate] + ts[1..temps + 1] + [TkTrigger], body);
    RunAppend(Invalid, [TkCreate] + ts[1..temps + 1], [TkTrigger]);
    RunAppend(Invalid, [TkCreate], ts[1..temps + 1]);
    assert Run(Invalid, [TkCreate]) == Create;
    TempsRun(ts[1..temps + 1]);
    assert Run(Create, [TkTrigger]) == Trigger;
    assert forall t :: t in body ==> t in ts;
    TriggerCompletes(body, |body|);
    assert body[..|body|] == body;
  }
}
