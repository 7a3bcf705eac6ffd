/** A text that is refused is refused for a stated fault, at the line where the fault stands. */
module Psd1Errors {
  import opened Prelude
  import opened Psd1Lexer
  import opened Psd1Parser
  import opened Psd1RoundTrip
  import opened Psd1Acceptance

  // ---- faults in the text ----

  /** The inside of a string in quotes, quotes doubled. */
  function Inside(quote: char, s: string): string {
    if s == "" then ""
    else (if s[0] == quote then [quote, quote] else [s[0]]) + Inside(quote, s[1..])
  }

  /** The text up to its end is the inside of a string whose closing quote is missing. */
  ghost predicate NeverClosed(quote: char, s: string) {
    exists inner :: FitsQuote(inner, quote) && s == Inside(quote, inner)
  }

  /** Inside a double-quoted string stands a `$` or a backtick. */
  ghost predicate Interpolates(s: string) {
    exists inner, c, rest :: FitsQuote(inner, '"') && c in "$`" && s == Inside('"', inner) + ([c] + rest)
  }

  /** No token and no layout starts like this. */
  predicate StartsNothing(s: string) {
    s != "" && !IsLetter(s[0]) && s[0] !in " \t\r\n#})=,;'\"" && !("@{" <= s) && !("@(" <= s)
  }

  /** The fault `e` reports stands at the beginning of `s`. */
  ghost predicate FaultAt(s: string, e: LexError) {
    && s != ""
    && match e
       case UnterminatedSingle(_) => s[0] == '\'' && NeverClosed('\'', s[1..])
       case UnterminatedDouble(_) => s[0] == '"' && NeverClosed('"', s[1..])
       case Interpolation(_) => s[0] == '"' && Interpolates(s[1..])
       case Unsupported(_) => StartsNothing(s)
  }

  lemma InsideGrows(quote: char, c: char, inner: string, rest: string)
    requires FitsQuote(inner, quote) && FitsQuote([c], quote)
    ensures FitsQuote([c] + inner, quote)
    ensures Inside(quote, [c] + inner) + rest
            == (if c == quote then [quote, quote] else [c]) + (Inside(quote, inner) + rest)
  {
    assert ([c] + inner)[1..] == inner;
  }

  lemma {:induction false} UnclosedIsInside(quote: char, s: string) returns (inner: string)
    requires Unquote(quote, s).Unclosed?
    ensures FitsQuote(inner, quote) && s == Inside(quote, inner)
  {
    inner := "";
    if s != "" {
      var used := if s[0] == quote then 2 else 1;
      assert s == s[..used] + s[used..];
      var more := UnclosedIsInside(quote, s[used..]);
      InsideGrows(quote, s[0], more, "");
      inner := [s[0]] + more;
      assert Inside(quote, more) + "" == Inside(quote, more);
    }
  }

  lemma {:induction false} DollarIsInside(quote: char, s: string) returns (inner: string, c: char, rest: string)
    requires Unquote(quote, s).Dollar?
    ensures quote == '"' && FitsQuote(inner, quote) && c in "$`" && s == Inside(quote, inner) + ([c] + rest)
  {
    if s[0] != quote && quote == '"' && s[0] in "$`" {
      inner, c, rest := "", s[0], s[1..];
    } else {
      var used := if s[0] == quote then 2 else 1;
      assert s == s[..used] + s[used..];
      var more;
      more, c, rest := DollarIsInside(quote, s[used..]);
      InsideGrows(quote, s[0], more, [c] + rest);
      inner := [s[0]] + more;
    }
  }

  /** Where the tokenizer gives up, there is a fault, and it is reported with the current line. */
  lemma StepFault(s: string, line: nat)
    requires s != "" && Next(s, line).Fail?
    ensures var e := Next(s, line).error; FaultAt(s, e) && e.line == line
  {
    if s[0] == '\'' || s[0] == '"' {
      StringFault(s, line);
    } else {
      assert StartsNothing(s);
    }
  }

  lemma StringFault(s: string, line: nat)
    requires s != "" && (s[0] == '\'' || s[0] == '"') && NextString(s[0], s, line).Fail?
    ensures var e := NextString(s[0], s, line).error; FaultAt(s, e) && e.line == line
  {
    if Unquote(s[0], s[1..]).Unclosed? {
      var inner := UnclosedIsInside(s[0], s[1..]);
      assert NeverClosed(s[0], s[1..]);
    } else {
      var inner, c, rest := DollarIsInside(s[0], s[1..]);
      assert Interpolates(s[1..]);
    }
  }

  /** A step over the first characters adds their line breaks. */
  lemma LinesAhead(s: string, line: nat, n: nat)
    requires s != "" && Next(s, line).Took? && Next(s, line).used + n <= |s|
    ensures var step := Next(s, line);
            line + Newlines(s[..step.used + n]) == step.line + Newlines(s[step.used..][..n])
  {
    hide Next;
    var step := Next(s, line);
    NextCountsLines(s, line);
    var head, ahead := s[..step.used], s[step.used..][..n];
    NewlinesAdd(head, s[step.used..]);
    NewlinesAdd(head, ahead);
    assert s == head + s[step.used..] && s[..step.used + n] == head + ahead;
  }

  /** Every lexical error names the line on which its fault stands in the text. */
  lemma {:induction false} LexErrorIsFault(s: string, line: nat) returns (n: nat)
    requires Lex(s, line).Err?
    ensures n < |s| && FaultAt(s[n..], Lex(s, line).error) && Lex(s, line).error.line == line + Newlines(s[..n])
    decreases |s|
  {
    hide Next, FaultAt;
    var step := Next(s, line);
    if step.Fail? {
      StepFault(s, line);
      n := 0;
      assert s[0..] == s && s[..0] == "";
    } else {
      var m := LexErrorIsFault(s[step.used..], step.line);
      LinesAhead(s, line, m);
      n := step.used + m;
      assert s[step.used..][m..] == s[n..];
    }
  }

  // ---- faults in the tokens ----

  /** Token `k` is the one `e` complains about, and must not stand there. */
  predicate WrongToken(ts: Tokens, k: nat, e: Error)
    requires k < |ts|
  {
    var tok := ts[k].tok;
    match e
    case Lexical(_) => false
    case ExpectedTable(line) =>
      line == ts[k].line && !tok.OpenTable? && !IsBreak(ts[k]) && forall j :: 0 <= j < k ==> IsBreak(ts[j])
    case TrailingContent(line) => line == ts[k].line && !tok.Eof? && !IsBreak(ts[k])
    case ExpectedKey(line) =>
      line == ts[k].line && !tok.Word? && !tok.Str? && !tok.CloseTable? && !IsBreak(ts[k])
    case ExpectedEquals(line) =>
      line == ts[k].line && !tok.Equals? && k > 0 && (ts[k - 1].tok.Word? || ts[k - 1].tok.Str?)
    case UnquotedValue(line) => line == ts[k].line && tok.Word?
    case ExpectedValue(line) =>
      && line == ts[k].line
      && (tok.CloseTable? || tok.CloseArray? || tok.Equals? || tok.Separator? || tok.Eof?)
    case UnterminatedArray(line) => line == ts[k].line && tok.Eof?
  }

  lemma {:induction false} ValueError(ts: Tokens, i: nat) returns (k: nat)
    requires Ended(ts) && i < |ts| && ParseValue(ts, i).Err?
    ensures i <= k < |ts| && WrongToken(ts, k, ParseValue(ts, i).error)
    decreases |ts| - i, 1
  {
    hide ParseTable, ParseArray;
    var j := SkipNewLines(ts, i);
    match ts[j].tok
    case OpenTable => k := TableError(ts, j + 1, map[]);
    case OpenArray => k := ArrayError(ts, j + 1, []);
    case _ => k := j;
  }

  lemma {:induction false} TableError(ts: Tokens, i: nat, entries: map<string, Value>) returns (k: nat)
    requires Ended(ts) && i < |ts| && ParseTable(ts, i, entries).Err?
    ensures i <= k < |ts| && WrongToken(ts, k, ParseTable(ts, i, entries).error)
    decreases |ts| - i, 0
  {
    hide ParseValue;
    var j := SkipBreaks(ts, i);
    if !ts[j].tok.Word? && !ts[j].tok.Str? {
      k := j;
    } else if !ts[j + 1].tok.Equals? {
      k := j + 1;
    } else if ParseValue(ts, j + 2).Err? {
      k := ValueError(ts, j + 2);
    } else {
      var p := ParseValue(ts, j + 2).value;
      k := TableError(ts, p.next, entries[ts[j].tok.value := p.value]);
    }
  }

  lemma {:induction false} ArrayError(ts: Tokens, i: nat, items: seq<Value>) returns (k: nat)
    requires Ended(ts) && i < |ts| && ParseArray(ts, i, items).Err?
    ensures i <= k < |ts| && WrongToken(ts, k, ParseArray(ts, i, items).error)
    decreases |ts| - i, 2
  {
    hide ParseValue;
    var j := SkipBreaks(ts, i);
    if ts[j].tok.Eof? {
      k := j;
    } else if ParseValue(ts, j).Err? {
      k := ValueError(ts, j);
    } else {
      var p := ParseValue(ts, j).value;
      k := ArrayError(ts, p.next, items + [p.value]);
    }
  }

  lemma {:induction false} BreaksBefore(ts: Tokens, i: nat)
    requires Ended(ts) && i < |ts|
    ensures forall j :: i <= j < SkipBreaks(ts, i) ==> IsBreak(ts[j])
    decreases |ts| - i
  {
    if IsBreak(ts[i]) {
      BreaksBefore(ts, i + 1);
    }
  }

  lemma DocumentError(ts: Tokens) returns (k: nat)
    requires Ended(ts) && ParseDocument(ts).Err?
    ensures k < |ts| && WrongToken(ts, k, ParseDocument(ts).error)
  {
    hide ParseTable;
    BreaksBefore(ts, 0);
    var i := SkipBreaks(ts, 0);
    if !ts[i].tok.OpenTable? {
      k := i;
    } else if ParseTable(ts, i + 1, map[]).Err? {
      k := TableError(ts, i + 1, map[]);
    } else {
      k := SkipBreaks(ts, ParseTable(ts, i + 1, map[]).value.next);
    }
  }

  /** Token `k` stands at position `n` of the text, and carries the number of its line. */
  lemma {:induction false} TokenStands(s: string, line: nat, ts: Tokens, i: nat, k: nat) returns (n: nat)
    requires Ended(ts) && Gives(s, line, ts, i) && i <= k < |ts|
    ensures n <= |s| && ts[k].line == line + Newlines(s[..n])
    ensures Gives(s[n..], ts[k].line, ts, k) && AtToken(s[n..], ts[k].line)
    decreases |s|
  {
    hide Next, Lex, Newlines, Gives, AtToken, Ended;
    if s == "" || (Next(s, line).Took? && Next(s, line).tokens != [] && i == k) {
      StandsHere(s, line, ts, i, k);
      n := 0;
    } else {
      Advance(s, line, ts, i);
      var step := Next(s, line);
      var m := TokenStands(s[step.used..], step.line, ts, i + |step.tokens|, k);
      LinesAhead(s, line, m);
      n := step.used + m;
      assert s[step.used..][m..] == s[n..];
    }
  }

  lemma StandsHere(s: string, line: nat, ts: Tokens, i: nat, k: nat)
    requires Ended(ts) && Gives(s, line, ts, i) && i <= k < |ts|
    requires s == "" || (Next(s, line).Took? && Next(s, line).tokens != [] && i == k)
    ensures ts[k].line == line + Newlines(s[..0]) && Gives(s[0..], ts[k].line, ts, k) && AtToken(s[0..], ts[k].line)
  {
    hide Next, Lex;
    assert s[0..] == s;
    if s == "" {
      EndsHere(line, ts, i);
      EndLine(line, ts, i);
    } else {
      Advance(s, line, ts, i);
      TokenLine(s, line);
    }
  }

  lemma EndLine(line: nat, ts: Tokens, i: nat)
    requires Gives("", line, ts, i)
    ensures ts[i].line == line
  {
    assert ts[i..][0] == Lexeme(Eof, line);
  }

  lemma TokenLine(s: string, line: nat)
    requires s != "" && Next(s, line).Took? && Next(s, line).tokens != []
    ensures Next(s, line).tokens[0].line == line
  {
  }

  // ---- every refusal ----

  /** Each refused text has the fault the error names, at a position whose line the error gives: in the text
      itself, or in a token that must not stand there. */
  lemma RefusalIsFault(text: string) returns (n: nat, k: nat)
    requires Parse(text).Err?
    ensures n <= |text|
    ensures match Parse(text).error
            case Lexical(fault) => FaultAt(text[n..], fault) && fault.line == 1 + Newlines(text[..n])
            case e =>
              && Lex(text, 1).Ok? && k < |Lex(text, 1).value| && WrongToken(Lex(text, 1).value, k, e)
              && e.line == 1 + Newlines(text[..n])
              && Gives(text[n..], e.line, Lex(text, 1).value, k) && AtToken(text[n..], e.line)
  {
    hide Next, FaultAt, Lex;
    n, k := 0, 0;
    match Lex(text, 1)
    case Err(_) => n := LexErrorIsFault(text, 1);
    case Ok(ts) =>
      LexEnds(text, 1);
      assert ts[0..] == ts;
      k := DocumentError(ts);
      n := TokenStands(text, 1, ts, 0, k);
  }
}
