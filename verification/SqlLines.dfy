/** Feeding the tokenizer line by line, as the shell does when it reads a file. */
module SqlLines {
  import opened Common
  import opened ReadState
  import opened SqlLexer
  import opened Text

  // ---------------------------------------------------------------- where a text ends

  /** No quoted text or block comment is left open at the end of `s`, as this tokenizer scans them. */
  predicate Closed(s: string)
    decreases |s|
  {
    s == "" || (if Rest(s).None? then KindOf(s[0], s[1..]) == LineComment else Closed(Rest(s).value))
  }

  predicate InLineComment(s: string)
    decreases |s|
  {
    s != "" && (if Rest(s).None? then KindOf(s[0], s[1..]) == LineComment else InLineComment(Rest(s).value))
  }

  /** A character that no token before it can absorb. */
  predicate Neutral(c: char) { !IsWordChar(c) && c != '-' && c != '*' }

  // ---------------------------------------------------------------- skipping over a concatenation

  lemma {:induction false} AfterAppend(s: string, t: string, c: char)
    ensures After(s + t, c) == if After(s, c).Some? then Some(After(s, c).value + t) else After(t, c)
  {
    if s == "" {
      assert s + t == t;
    } else {
      AfterAppend(s[1..], t, c);
      assert (s + t)[1..] == s[1..] + t;
    }
  }

  lemma {:induction false} AfterBlockAppend(s: string, t: string, sawStar: bool)
    ensures AfterBlock(s, sawStar).Some? ==> AfterBlock(s + t, sawStar) == Some(AfterBlock(s, sawStar).value + t)
    ensures AfterBlock(s, sawStar).None? && '/' !in t ==> AfterBlock(s + t, sawStar).None?
    decreases |s|
  {
    if s == "" {
      assert s + t == t;
      NoSlash(t, sawStar);
    } else {
      AfterBlockAppend(s[1..], t, s[0] == '*');
      assert (s + t)[1..] == s[1..] + t;
    }
  }

  lemma {:induction false} NoSlash(t: string, sawStar: bool)
    ensures '/' !in t ==> AfterBlock(t, sawStar).None?
    decreases |t|
  {
    if t != "" {
      NoSlash(t[1..], t[0] == '*');
    }
  }

  lemma {:induction false} WordLengthAppend(s: string, t: string)
    requires t == "" || !IsWordChar(t[0])
    ensures WordLength(s + t) == WordLength(s)
  {
    if s == "" {
      assert s + t == t;
    } else {
      WordLengthAppend(s[1..], t);
      assert (s + t)[1..] == s[1..] + t;
    }
  }

  /** Text that starts with a neutral character does not change how a token before it is read. */
  lemma StepExtends(s: string, t: string)
    requires s != "" && t != "" && Neutral(t[0])
    ensures KindOf((s + t)[0], (s + t)[1..]) == KindOf(s[0], s[1..])
    ensures Emitted(s + t) == Emitted(s)
    ensures Rest(s).Some? ==> Rest(s + t) == Some(Rest(s).value + t)
  {
    var u := s + t;
    assert u[0] == s[0] && u[1..] == s[1..] + t;
    match KindOf(s[0], s[1..])
    case Quoted(closer) =>
      AfterAppend(s[1..], t, closer);
    case LineComment =>
      assert u[2..] == s[2..] + t;
      AfterAppend(s[2..], t, '\n');
    case BlockComment =>
      AfterBlockAppend(s[1..], t, false);
    case Word =>
      WordLengthAppend(s[1..], t);
      var n := 1 + WordLength(s[1..]);
      assert u[..n] == s[..n] && u[n..] == s[n..] + t;
    case Single(_) =>
  }

  lemma TokensStep(s: string)
    requires s != ""
    ensures Tokens(s) == Emitted(s) + if Rest(s).None? then [] else Tokens(Rest(s).value)
  {
  }

  // ---------------------------------------------------------------- splitting a text

  /** After a text that ends outside quotes and comments, tokens start afresh. */
  lemma {:induction false} SplitAtTop(s: string, t: string)
    requires Closed(s) && !InLineComment(s) && t != "" && Neutral(t[0])
    ensures Tokens(s + t) == Tokens(s) + Tokens(t)
    decreases |s|
  {
    hide Emitted, KindOf, Rest, Tokens;
    if s == "" {
      assert s + t == t;
      NoTokens();
    } else {
      StepExtends(s, t);
      var r := Rest(s).value;
      SplitAtTop(r, t);
      TokensStep(s);
      TokensStep(s + t);
      assert Emitted(s) + (Tokens(r) + Tokens(t)) == (Emitted(s) + Tokens(r)) + Tokens(t);
    }
  }

  lemma NoTokens()
    ensures Tokens("") == []
  {
  }

  lemma AfterFirst(t: string, c: char)
    ensures After([c] + t, c) == Some(t)
  {
    assert ([c] + t)[1..] == t;
  }

  lemma NewlineStep(t: string)
    ensures Rest("\n" + t) == Some(t)
  {
    assert ("\n" + t)[1..] == t;
  }

  lemma CommentEnds(s: string, t: string)
    requires s != "" && Rest(s).None? && KindOf(s[0], s[1..]) == LineComment
    ensures Rest(s + ("\n" + t)) == Some(t)
  {
    var u := s + ("\n" + t);
    StepExtends(s, "\n" + t);
    assert u[2..] == s[2..] + ("\n" + t);
    AfterAppend(s[2..], "\n" + t, '\n');
    AfterFirst(t, '\n');
  }

  /** A line comment ends with its line. */
  lemma {:induction false} SplitAtComment(s: string, t: string)
    requires InLineComment(s)
    ensures Tokens(s + "\n" + t) == Tokens(s) + Tokens(t)
    decreases |s|
  {
    hide Emitted, Tokens, Rest, KindOf;
    assert s + "\n" + t == s + ("\n" + t);
    StepExtends(s, "\n" + t);
    TokensStep(s);
    TokensStep(s + ("\n" + t));
    if Rest(s).None? {
      CommentEnds(s, t);
      assert Emitted(s) + Tokens(t) == (Emitted(s) + []) + Tokens(t);
    } else {
      var r := Rest(s).value;
      SplitAtComment(r, t);
      assert r + "\n" + t == r + ("\n" + t);
      assert Emitted(s) + (Tokens(r) + Tokens(t)) == (Emitted(s) + Tokens(r)) + Tokens(t);
    }
  }

  /** Text inside an open quote or block comment emits nothing until it is closed. */
  lemma {:induction false} OpenSwallows(s: string, t: string)
    requires !Closed(s) && t != "" && Neutral(t[0])
    requires '/' !in t && forall c :: IsQuote(c) ==> Closer(c) !in t
    ensures Tokens(s + t) == Tokens(s)
    decreases |s|
  {
    hide Emitted, Tokens;
    StepExtends(s, t);
    TokensStep(s);
    TokensStep(s + t);
    if Rest(s).Some? {
      OpenSwallows(Rest(s).value, t);
    } else {
      assert (s + t)[1..] == s[1..] + t;
      match KindOf(s[0], s[1..])
      case Quoted(closer) =>
        AfterAppend(s[1..], t, closer);
        NotThere(t, closer);
      case BlockComment =>
        AfterBlockAppend(s[1..], t, false);
    }
  }

  lemma {:induction false} NotThere(t: string, c: char)
    requires c !in t
    ensures After(t, c).None?
  {
    if t != "" {
      NotThere(t[1..], c);
    }
  }

  // ---------------------------------------------------------------- line by line

  lemma ProcessSplit(state: State, s: string, t: string, u: string)
    requires Tokens(u) == Tokens(s) + Tokens(t)
    ensures Process(state, u) == Process(Process(state, s), t)
  {
    RunAppend(state, Tokens(s), Tokens(t));
  }

  lemma LeadingNewline(state: State, t: string)
    ensures Process(state, "\n" + t) == Process(state, t)
  {
    assert ("\n" + t)[1..] == t;
    assert Tokens("\n" + t) == [TkWhitespace] + Tokens(t);
  }

  /** A fresh tokenizer for the next line continues where the previous line left off. */
  lemma ClosedLineSplits(state: State, line: string, rest: string)
    requires Closed(line)
    ensures Process(state, line + "\n" + rest) == Process(Process(state, line), rest)
  {
    hide Process, Tokens;
    if InLineComment(line) {
      SplitAtComment(line, rest);
      ProcessSplit(state, line, rest, line + "\n" + rest);
    } else {
      assert line + "\n" + rest == line + ("\n" + rest);
      SplitAtTop(line, "\n" + rest);
      ProcessSplit(state, line, "\n" + rest, line + "\n" + rest);
      LeadingNewline(Process(state, line), rest);
    }
  }

  /** Whether cutting a text after `line` is invisible, whatever state it starts in and whatever follows. */
  ghost predicate SplitsSafely(line: string)
  {
    forall state, rest :: Process(state, line + "\n" + rest) == Process(Process(state, line), rest)
  }

  /** Line-by-line processing agrees with whole-text processing at exactly the lines that leave nothing open. */
  lemma SplitsSafelyIffClosed(line: string)
    ensures SplitsSafely(line) <==> Closed(line)
  {
    hide Process;
    if Closed(line) {
      forall state, rest ensures Process(state, line + "\n" + rest) == Process(Process(state, line), rest) {
        ClosedLineSplits(state, line, rest);
      }
    } else {
      var rest := OpenLineMisleads(line);
    }
  }

  /** After an open line, a semicolon or a word is swallowed by the text but seen by the fresh tokenizer. */
  lemma OpenLineMisleads(line: string) returns (rest: string)
    requires !Closed(line)
    ensures Process(Invalid, line + "\n" + rest) != Process(Process(Invalid, line), rest)
  {
    hide Tokens, Closed, Run;
    var s := Process(Invalid, line);
    rest := if s == Start || s == Semi then "a" else ";";
    assert line + "\n" + rest == line + ("\n" + rest);
    OpenSwallows(line, "\n" + rest);
    OneToken(s);
  }

  lemma OneToken(s: State)
    ensures Process(s, ";") == Transition(s, TkSemi) && Process(s, "a") == Transition(s, TkOther)
  {
    assert ";"[1..] == "" && Tokens(";") == [TkSemi];
    assert "a"[..1] == "a" && "a"[1..] == "" && Upper("a") == "A" && Tokens("a") == [TkOther];
  }

  /** Two closed texts joined by a newline are closed. */
  lemma {:induction false} ClosedJoin(s: string, t: string)
    requires Closed(s) && Closed(t)
    ensures Closed(s + "\n" + t)
    decreases |s|
  {
    hide Emitted, Rest;
    var u := "\n" + t;
    assert s + "\n" + t == s + u && u[1..] == t;
    if s == "" {
      assert s + u == u;
      NewlineStep(t);
    } else {
      StepExtends(s, u);
      if Rest(s).None? {
        CommentEnds(s, t);
      } else {
        ClosedJoin(Rest(s).value, t);
        assert Rest(s).value + "\n" + t == Rest(s).value + u;
      }
    }
  }

  // ---------------------------------------------------------------- reading a file

  function LineRun(state: State, lines: seq<string>): State
    decreases |lines|
  {
    if lines == [] then state else LineRun(Process(state, lines[0]), lines[1..])
  }

  /** The shell's query buffer after some lines: joined by newlines, except that leading empty lines leave no trace. */
  function Buffer(lines: seq<string>): string
  {
    if lines == [] then ""
    else
      var b := Buffer(lines[..|lines| - 1]);
      (if b == "" then "" else b + "\n") + lines[|lines| - 1]
  }

  lemma {:induction false} LineRunSnoc(state: State, lines: seq<string>, line: string)
    ensures LineRun(state, lines + [line]) == Process(LineRun(state, lines), line)
    decreases |lines|
  {
    if lines == [] {
      assert lines + [line] == [line] && [line][1..] == [];
    } else {
      LineRunSnoc(Process(state, lines[0]), lines[1..], line);
      assert (lines + [line])[1..] == lines[1..] + [line];
    }
  }

  ghost predicate AllClosed(lines: seq<string>)
  {
    forall i :: 0 <= i < |lines| ==> Closed(lines[i])
  }

  /** When no line leaves anything open, the state kept line by line is the state of the buffered text. */
  lemma {:induction false} BufferState(lines: seq<string>)
    requires AllClosed(lines)
    ensures Closed(Buffer(lines)) && LineRun(Invalid, lines) == Process(Invalid, Buffer(lines))
    decreases |lines|
  {
    hide Process;
    if lines == [] {
      EmptyText();
    } else {
      var init, line := lines[..|lines| - 1], lines[|lines| - 1];
      assert lines == init + [line];
      BufferState(init);
      LineRunSnoc(Invalid, init, line);
      if Buffer(init) == "" {
        EmptyText();
        assert "" + line == line;
      } else {
        ClosedLineSplits(Invalid, Buffer(init), line);
        ClosedJoin(Buffer(init), line);
      }
    }
  }

  lemma EmptyText()
    ensures Process(Invalid, "") == Invalid
  {
  }

  /** No prefix of lines `from..to` is complete. */
  ghost predicate Incomplete(lines: seq<string>, from: nat, to: nat)
  {
    from <= to <= |lines| && forall j :: from <= j <= to ==> !IsComplete(LineRun(Invalid, lines[from..j]))
  }

  /** Lines `from..to` are what one query is made of: complete after the last line and not before. */
  ghost predicate Batch(lines: seq<string>, from: nat, to: nat)
  {
    from < to <= |lines| && Incomplete(lines, from, to - 1) && IsComplete(LineRun(Invalid, lines[from..to]))
  }

  /** The queries run at the given cuts: one per batch of lines, in order. */
  ghost predicate Ran(lines: seq<string>, cuts: seq<nat>, queries: seq<string>)
  {
    && cuts != [] && cuts[0] == 0 && |queries| == |cuts| - 1
    && forall i :: 0 <= i < |queries| ==>
         Batch(lines, cuts[i], cuts[i + 1]) && queries[i] == Buffer(lines[cuts[i]..cuts[i + 1]])
  }

  lemma RanOneMore(lines: seq<string>, cuts: seq<nat>, queries: seq<string>, to: nat)
    requires Ran(lines, cuts, queries) && Batch(lines, cuts[|cuts| - 1], to)
    ensures Ran(lines, cuts + [to], queries + [Buffer(lines[cuts[|cuts| - 1]..to])])
  {
  }

  lemma IncompleteOneMore(lines: seq<string>, from: nat, to: nat)
    requires from <= to < |lines| && Incomplete(lines, from, to)
    ensures if IsComplete(LineRun(Invalid, lines[from..to + 1])) then Batch(lines, from, to + 1) else Incomplete(lines, from, to + 1)
  {
  }

  lemma NothingYet(lines: seq<string>, from: nat)
    requires from <= |lines|
    ensures Incomplete(lines, from, from) && Buffer(lines[from..from]) == "" && LineRun(Invalid, lines[from..from]) == Invalid
  {
  }

  /** The whole file: the queries run at `cuts`, and what is left after the last one unless it is blank. */
  ghost predicate RanFile(lines: seq<string>, cuts: seq<nat>, queries: seq<string>)
  {
    && 0 <= |cuts| - 1 <= |queries| && Ran(lines, cuts, queries[..|cuts| - 1])
    && var last := cuts[|cuts| - 1];
       && Incomplete(lines, last, |lines|)
       && var remaining := Trim(Buffer(lines[last..]));
          queries[|cuts| - 1..] == if remaining == "" then [] else [remaining]
  }

  /** The line loop of the shell's file reader. */
  method ReadSqlFile(lines: seq<string>) returns (queries: seq<string>)
    ensures exists cuts :: RanFile(lines, cuts, queries)
  {
    hide Trim, Process, Ran, Incomplete, Batch, LineRun;
    queries := [];
    ghost var cuts: seq<nat> := [0];
    var buffer, state := "", Invalid;
    ghost var start := 0;
    NothingRun(lines);
    NothingYet(lines, 0);
    for i := 0 to |lines|
      invariant 0 <= start <= i && cuts != [] && cuts[|cuts| - 1] == start
      invariant buffer == Buffer(lines[start..i]) && state == LineRun(Invalid, lines[start..i])
      invariant Incomplete(lines, start, i)
      invariant |queries| == |cuts| - 1 && Ran(lines, cuts, queries)
    {
      var line := lines[i];
      assert lines[start..i + 1] == lines[start..i] + [line];
      LineRunSnoc(Invalid, lines[start..i], line);
      if buffer != "" {
        buffer := buffer + "\n";
      }
      buffer := buffer + line;
      state := ProcessText(state, line);
      IncompleteOneMore(lines, start, i);
      if IsComplete(state) {
        RanOneMore(lines, cuts, queries, i + 1);
        queries := queries + [buffer];
        cuts := cuts + [i + 1];
        buffer, state := "", Invalid;
        start := i + 1;
        NothingYet(lines, start);
      }
    }
    assert lines[start..|lines|] == lines[start..];
    assert queries[..|cuts| - 1] == queries;
    var remaining := Trim(buffer);
    if remaining != "" {
      assert (queries + [remaining])[..|cuts| - 1] == queries;
      queries := queries + [remaining];
    }
    assert RanFile(lines, cuts, queries);
  }

  lemma NothingRun(lines: seq<string>)
    ensures Ran(lines, [0], [])
  {
  }

  /** Each query the file reader runs on completion is, taken by itself, complete, and no shorter cut of its lines is. */
  lemma BatchIsComplete(lines: seq<string>, from: nat, to: nat)
    requires AllClosed(lines) && Batch(lines, from, to)
    ensures IsComplete(Process(Invalid, Buffer(lines[from..to])))
    ensures forall j :: from <= j < to ==> !IsComplete(Process(Invalid, Buffer(lines[from..j])))
  {
    hide Process, LineRun, Buffer;
    BufferState(lines[from..to]);
    forall j | from <= j < to ensures !IsComplete(Process(Invalid, Buffer(lines[from..j]))) {
      BufferState(lines[from..j]);
    }
  }

  // ---------------------------------------------------------------- the lines of a text

  /** `BufRead::lines`: each line without its newline and without a carriage return before it. */
  function Lines(text: string): seq<string>
    decreases |text|
  {
    if text == "" then []
    else
      match After(text, '\n')
      case None => [text]
      case Some(rest) => [DropCr(text[..|text| - |rest| - 1])] + Lines(rest)
  }

  function DropCr(line: string): string
  {
    if line != "" && line[|line| - 1] == '\r' then line[..|line| - 1] else line
  }

  /** A carriage return at the end of a line neither changes the state nor opens or closes anything. */
  lemma {:induction false} TrailingCr(state: State, s: string)
    ensures Closed(s + "\r") <==> Closed(s)
    ensures Process(state, s + "\r") == Process(state, s)
    decreases |s|
  {
    var u := s + "\r";
    if s == "" {
      assert u == "\r" && u[1..] == "";
      assert Tokens(u) == [TkWhitespace] + Tokens("") == [TkWhitespace];
    } else {
      StepExtends(s, "\r");
      TokensStep(s);
      TokensStep(u);
      if Rest(s).Some? {
        TrailingCr(Run(state, Emitted(s)), Rest(s).value);
        RunAppend(state, Emitted(s), Tokens(Rest(s).value));
        RunAppend(state, Emitted(s), Tokens(Rest(s).value + "\r"));
      } else {
        CrStaysInside(s);
      }
    }
  }

  lemma CrStaysInside(s: string)
    requires s != "" && Rest(s).None?
    ensures Rest(s + "\r").None? && KindOf((s + "\r")[0], (s + "\r")[1..]) == KindOf(s[0], s[1..])
  {
    var u := s + "\r";
    assert u[1..] == s[1..] + "\r";
    assert After("\r", '\n').None?;
    match KindOf(s[0], s[1..])
    case Quoted(closer) =>
      NotThere("\r", closer);
      AfterAppend(s[1..], "\r", closer);
    case LineComment =>
      assert u[2..] == s[2..] + "\r";
      AfterAppend(s[2..], "\r", '\n');
    case BlockComment =>
      AfterBlockAppend(s[1..], "\r", false);
  }

  /** Processing a file line by line ends in the state of processing its whole text, when no line leaves anything open. */
  lemma {:induction false} LinesAgree(state: State, text: string)
    requires AllClosed(Lines(text))
    ensures LineRun(state, Lines(text)) == Process(state, text)
    decreases |text|
  {
    hide Process;
    if text == "" {
      SameState(state);
    } else if After(text, '\n').None? {
      assert [text][1..] == [];
    } else {
      var rest := After(text, '\n').value;
      var line := text[..|text| - |rest| - 1];
      AfterSplits(text, '\n');
      assert text == line + "\n" + rest;
      var lines := Lines(text);
      assert lines[0] == DropCr(line) && lines[1..] == Lines(rest);
      assert AllClosed(Lines(rest));
      if DropCr(line) != line {
        TrailingCr(state, DropCr(line));
        assert DropCr(line) + "\r" == line;
      }
      ClosedLineSplits(state, line, rest);
      LinesAgree(Process(state, line), rest);
    }
  }

  lemma SameState(state: State)
    ensures Process(state, "") == state
  {
  }

  lemma {:induction false} AfterSplits(s: string, c: char)
    requires After(s, c).Some?
    ensures var r := After(s, c).value; s == s[..|s| - |r| - 1] + [c] + r
  {
    if s[0] != c {
      AfterSplits(s[1..], c);
    }
  }

  predicate LineEnd(s: string) { s == "\n" || s == "\r\n" }

  function Rejoined(lines: seq<string>, ends: seq<string>): string
    requires |ends| == |lines|
  {
    if lines == [] then "" else lines[0] + ends[0] + Rejoined(lines[1..], ends[1..])
  }

  /** Each line with the line end it had in the text: any but the last has one, and a newline alone follows no carriage return. */
  ghost predicate Ended(lines: seq<string>, ends: seq<string>)
  {
    && |ends| == |lines|
    && (forall i :: 0 <= i < |lines| ==> '\n' !in lines[i])
    && (forall i :: 0 <= i < |lines| ==> LineEnd(ends[i]) || (i == |lines| - 1 && ends[i] == "" && lines[i] != ""))
    && (forall i :: 0 <= i < |lines| && ends[i] == "\n" ==> DropCr(lines[i]) == lines[i])
  }

  /** The lines of a text, with their line ends put back, are the text. */
  lemma {:induction false} LinesRejoin(text: string) returns (ends: seq<string>)
    ensures Ended(Lines(text), ends) && text == Rejoined(Lines(text), ends)
    decreases |text|
  {
    if text == "" {
      ends := [];
    } else if After(text, '\n').None? {
      ends := [""];
      NotIn(text, '\n');
    } else {
      var rest := After(text, '\n').value;
      var line := text[..|text| - |rest| - 1];
      AfterSplits(text, '\n');
      NotBefore(text, '\n');
      var more := LinesRejoin(rest);
      var end := if DropCr(line) == line then "\n" else "\r\n";
      ends := [end] + more;
      assert DropCr(line) + end == line + "\n";
      assert Lines(text) == [DropCr(line)] + Lines(rest) && Lines(text)[1..] == Lines(rest) && ends[1..] == more;
    }
  }

  lemma {:induction false} NotIn(s: string, c: char)
    requires After(s, c).None?
    ensures c !in s
  {
    if s != "" {
      NotIn(s[1..], c);
    }
  }

  lemma {:induction false} NotBefore(s: string, c: char)
    requires After(s, c).Some?
    ensures c !in s[..|s| - |After(s, c).value| - 1]
  {
    if s[0] != c {
      NotBefore(s[1..], c);
      var n := |s| - |After(s, c).value| - 1;
      assert s[..n] == [s[0]] + s[1..][..n - 1];
    }
  }

  function Join(lines: seq<string>): string
  {
    if lines == [] then "" else if |lines| == 1 then lines[0] else lines[0] + "\n" + Join(lines[1..])
  }

  lemma {:induction false} JoinSnoc(lines: seq<string>, line: string)
    requires lines != []
    ensures Join(lines + [line]) == Join(lines) + "\n" + line
  {
    assert (lines + [line])[1..] == lines[1..] + [line];
    if |lines| > 1 {
      JoinSnoc(lines[1..], line);
      assert lines[0] + "\n" + (Join(lines[1..]) + "\n" + line) == lines[0] + "\n" + Join(lines[1..]) + "\n" + line;
    }
  }

  /** The buffer holds the lines from the first one that is not empty, joined by newlines. */
  lemma {:induction false} BufferJoins(lines: seq<string>, k: nat)
    requires k <= |lines| && (forall i :: 0 <= i < k ==> lines[i] == "") && (k == |lines| || lines[k] != "")
    ensures Buffer(lines) == Join(lines[k..]) && (k < |lines| ==> Buffer(lines) != "")
    decreases |lines|
  {
    if lines != [] {
      var init, line := lines[..|lines| - 1], lines[|lines| - 1];
      if k < |init| {
        BufferJoins(init, k);
        JoinSnoc(init[k..], line);
        assert lines[k..] == init[k..] + [line];
      } else {
        BufferJoins(init, |init|);
      }
    }
  }
}
