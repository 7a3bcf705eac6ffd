/** The tokenizer of `setup.py` for the manifest's data-file grammar. */
module Psd1Lexer {
  import opened Prelude

  datatype Token =
    | OpenTable | OpenArray | CloseTable | CloseArray | Equals | Separator | NewLine
    | Str(value: string) | Word(value: string) | Eof

  datatype Lexeme = Lexeme(tok: Token, line: nat)

  datatype LexError =
    | UnterminatedSingle(line: nat)
    | UnterminatedDouble(line: nat)
    | Interpolation(line: nat)
    | Unsupported(line: nat)

  type Lexed = Result<seq<Lexeme>, LexError>

  function Emit(ls: seq<Lexeme>, r: Lexed): Lexed {
    match r
    case Ok(rest) => Ok(ls + rest)
    case Err(e) => Err(e)
  }

  function Newlines(s: string): nat {
    if s == "" then 0 else (if s[0] == '\n' then 1 else 0) + Newlines(s[1..])
  }

  predicate WordStart(c: char) {
    'A' <= c <= 'Z' || 'a' <= c <= 'z' || c == '_'
  }

  predicate WordPart(c: char) {
    WordStart(c) || '0' <= c <= '9' || c == '.' || c == '-'
  }

  function WordLength(s: string): (n: nat)
    ensures n <= |s|
  {
    if s != "" && WordPart(s[0]) then 1 + WordLength(s[1..]) else 0
  }

  function CommentLength(s: string): (n: nat)
    ensures n <= |s|
  {
    if s != "" && s[0] != '\n' then 1 + CommentLength(s[1..]) else 0
  }

  /** What follows an opening quote: the value, and how many characters up to and with the closing
      quote. */
  datatype Quoted = Closed(value: string, used: nat) | Unclosed | Dollar

  function Push(c: char, width: nat, q: Quoted): Quoted {
    if q.Closed? then Closed([c] + q.value, q.used + width) else q
  }

  /** A doubled quote stands for one; inside double quotes `$` and the backtick are refused. */
  function Unquote(quote: char, s: string): (q: Quoted)
    ensures q.Closed? ==> 0 < q.used <= |s|
  {
    if s == "" then Unclosed
    else if s[0] == quote then
      if |s| > 1 && s[1] == quote then Push(quote, 2, Unquote(quote, s[2..])) else Closed("", 1)
    else if quote == '"' && s[0] in "$`" then Dollar
    else Push(s[0], 1, Unquote(quote, s[1..]))
  }

  /** One step of the tokenizer: the tokens it adds, the characters it uses, the line it ends on. */
  datatype Step = Took(tokens: seq<Lexeme>, used: nat, line: nat) | Fail(error: LexError)

  function NextString(quote: char, s: string, line: nat): (step: Step)
    requires s != ""
    ensures step.Took? ==> 0 < step.used <= |s|
  {
    match Unquote(quote, s[1..])
    case Closed(value, used) => Took([Lexeme(Str(value), line)], used + 1, line + Newlines(value))
    case Unclosed => Fail(if quote == '"' then UnterminatedDouble(line) else UnterminatedSingle(line))
    case Dollar => Fail(Interpolation(line))
  }

  function Next(s: string, line: nat): (step: Step)
    requires s != ""
    ensures step.Took? ==> 0 < step.used <= |s|
  {
    if s[0] == '\n' then Took([Lexeme(NewLine, line)], 1, line + 1)
    else if s[0] in " \t\r" then Took([], 1, line)
    else if s[0] == '#' then Took([], 1 + CommentLength(s[1..]), line)
    else if "@{" <= s then Took([Lexeme(OpenTable, line)], 2, line)
    else if "@(" <= s then Took([Lexeme(OpenArray, line)], 2, line)
    else if s[0] == '}' then Took([Lexeme(CloseTable, line)], 1, line)
    else if s[0] == ')' then Took([Lexeme(CloseArray, line)], 1, line)
    else if s[0] == '=' then Took([Lexeme(Equals, line)], 1, line)
    else if s[0] in ",;" then Took([Lexeme(Separator, line)], 1, line)
    else if s[0] == '\'' || s[0] == '"' then NextString(s[0], s, line)
    else if WordStart(s[0]) then
      var n := 1 + WordLength(s[1..]);
      Took([Lexeme(Word(s[..n]), line)], n, line)
    else Fail(Unsupported(line))
  }

  /** The tokens of `s`, whose first character is on line `line`. */
  function Lex(s: string, line: nat): Lexed
    decreases |s|
  {
    if s == "" then Ok([Lexeme(Eof, line)])
    else match Next(s, line)
         case Fail(e) => Err(e)
         case Took(tokens, used, line') => Emit(tokens, Lex(s[used..], line'))
  }

  /** The end token closes the list and occurs nowhere else. */
  ghost predicate Ended(ts: seq<Lexeme>) {
    ts != [] && ts[|ts| - 1].tok.Eof? && forall i :: 0 <= i < |ts| - 1 ==> !ts[i].tok.Eof?
  }

  lemma {:induction false} NewlinesAdd(a: string, b: string)
    ensures Newlines(a + b) == Newlines(a) + Newlines(b)
  {
    if a == "" {
      assert a + b == b;
    } else {
      NewlinesAdd(a[1..], b);
      assert (a + b)[1..] == a[1..] + b;
    }
  }

  lemma {:induction false} UnquoteCountsLines(quote: char, s: string)
    requires quote != '\n' && Unquote(quote, s).Closed?
    ensures var q := Unquote(quote, s); Newlines(s) == Newlines(q.value) + Newlines(s[q.used..])
  {
    var q := Unquote(quote, s);
    if s[0] == quote && |s| > 1 && s[1] == quote {
      var q' := Unquote(quote, s[2..]);
      UnquoteCountsLines(quote, s[2..]);
      assert s[1..][1..] == s[2..] && s[2..][q'.used..] == s[q.used..];
      assert q.value[1..] == q'.value;
    } else if s[0] != quote {
      var q' := Unquote(quote, s[1..]);
      UnquoteCountsLines(quote, s[1..]);
      assert s[1..][q'.used..] == s[q.used..] && q.value[1..] == q'.value;
    }
  }

  lemma {:induction false} CommentHasNoNewline(s: string)
    ensures Newlines(s) == Newlines(s[CommentLength(s)..])
  {
    if s != "" && s[0] != '\n' {
      CommentHasNoNewline(s[1..]);
      assert s[CommentLength(s)..] == s[1..][CommentLength(s[1..])..];
    } else {
      assert s[0..] == s;
    }
  }

  lemma {:induction false} WordHasNoNewline(s: string)
    ensures Newlines(s) == Newlines(s[WordLength(s)..])
  {
    if s != "" && WordPart(s[0]) {
      WordHasNoNewline(s[1..]);
      assert s[WordLength(s)..] == s[1..][WordLength(s[1..])..];
    } else {
      assert s[0..] == s;
    }
  }

  /** A step of `used` characters that ends on line `line'` has counted its line breaks. */
  ghost predicate Counted(s: string, line: nat, used: nat, line': nat)
    requires used <= |s|
  {
    line + Newlines(s) == line' + Newlines(s[used..])
  }

  lemma OneCounted(s: string, line: nat)
    requires s != ""
    ensures Counted(s, line, 1, if s[0] == '\n' then line + 1 else line)
  {
  }

  lemma TwoCounted(s: string, line: nat)
    requires "@{" <= s || "@(" <= s
    ensures Counted(s, line, 2, line)
  {
    assert s[0] == '@' && s[1] != '\n';
    assert s[1..][1..] == s[2..];
  }

  lemma CommentCounted(s: string, line: nat)
    requires s != "" && s[0] != '\n'
    ensures Counted(s, line, 1 + CommentLength(s[1..]), line)
  {
    CommentHasNoNewline(s[1..]);
    assert s[1..][CommentLength(s[1..])..] == s[1 + CommentLength(s[1..])..];
  }

  lemma WordCounted(s: string, line: nat)
    requires s != "" && s[0] != '\n'
    ensures Counted(s, line, 1 + WordLength(s[1..]), line)
  {
    WordHasNoNewline(s[1..]);
    assert s[1..][WordLength(s[1..])..] == s[1 + WordLength(s[1..])..];
  }

  lemma StringCounted(s: string, line: nat)
    requires s != "" && s[0] != '\n' && NextString(s[0], s, line).Took?
    ensures var step := NextString(s[0], s, line); Counted(s, line, step.used, step.line)
  {
    UnquoteCountsLines(s[0], s[1..]);
    var used := Unquote(s[0], s[1..]).used;
    assert s[1..][used..] == s[used + 1..];
  }

  /** One step counts the line breaks it uses. */
  lemma NextCountsLines(s: string, line: nat)
    requires s != "" && Next(s, line).Took?
    ensures var step := Next(s, line); Counted(s, line, step.used, step.line)
  {
    if s[0] == '#' {
      CommentCounted(s, line);
    } else if "@{" <= s || "@(" <= s {
      TwoCounted(s, line);
    } else if s[0] == '\'' || s[0] == '"' {
      StringCounted(s, line);
    } else if WordStart(s[0]) {
      WordCounted(s, line);
    } else {
      OneCounted(s, line);
    }
  }

  lemma NextAddsNoEnd(s: string, line: nat)
    requires s != "" && Next(s, line).Took?
    ensures forall t :: t in Next(s, line).tokens ==> !t.tok.Eof?
  {
  }

  /** Every line break is counted, wherever it stands: the end token carries the number of the last
      line.  And it is the only end token, so a reader that stops at it stays inside the list. */
  lemma {:induction false} LexEnds(s: string, line: nat)
    requires Lex(s, line).Ok?
    ensures Ended(Lex(s, line).value)
    ensures var ts := Lex(s, line).value; ts[|ts| - 1] == Lexeme(Eof, line + Newlines(s))
    decreases |s|
  {
    if s != "" {
      var step := Next(s, line);
      NextCountsLines(s, line);
      NextAddsNoEnd(s, line);
      LexEnds(s[step.used..], step.line);
    }
  }

  lemma EmitEmit(a: seq<Lexeme>, b: seq<Lexeme>, r: Lexed)
    ensures Emit(a, Emit(b, r)) == Emit(a + b, r)
  {
    if r.Ok? {
      assert a + (b + r.value) == (a + b) + r.value;
    }
  }

  // ---- the loop ----

  function PushAll(buf: string, width: nat, q: Quoted): Quoted {
    if q.Closed? then Closed(buf + q.value, q.used + width) else q
  }

  lemma PushAllPush(buf: string, width: nat, c: char, w: nat, q: Quoted)
    ensures PushAll(buf, width, Push(c, w, q)) == PushAll(buf + [c], width + w, q)
  {
    if q.Closed? {
      assert buf + ([c] + q.value) == (buf + [c]) + q.value;
    }
  }

  /** The characters from `from` up to `j` have been read into `buf`. */
  ghost predicate ReadSoFar(quote: char, text: string, from: nat, j: nat, buf: string)
    requires from <= j <= |text|
  {
    Unquote(quote, text[from..]) == PushAll(buf, j - from, Unquote(quote, text[j..]))
  }

  lemma ReadPair(quote: char, text: string, from: nat, j: nat, buf: string)
    requires from <= j && j + 1 < |text| && ReadSoFar(quote, text, from, j, buf)
    requires text[j] == text[j + 1] == quote
    ensures ReadSoFar(quote, text, from, j + 2, buf + [quote])
  {
    assert text[j..][2..] == text[j + 2..];
    PushAllPush(buf, j - from, quote, 2, Unquote(quote, text[j + 2..]));
  }

  lemma ReadOne(quote: char, text: string, from: nat, j: nat, buf: string)
    requires from <= j < |text| && ReadSoFar(quote, text, from, j, buf)
    requires text[j] != quote && !(quote == '"' && text[j] in "$`")
    ensures ReadSoFar(quote, text, from, j + 1, buf + [text[j]])
  {
    assert text[j..][0] == text[j] && text[j..][1..] == text[j + 1..];
    PushAllPush(buf, j - from, text[j], 1, Unquote(quote, text[j + 1..]));
  }

  lemma ReadEnd(quote: char, text: string, from: nat, j: nat, buf: string)
    requires from <= j <= |text| && ReadSoFar(quote, text, from, j, buf)
    ensures j == |text| ==> Unquote(quote, text[from..]) == Unclosed
    ensures j < |text| && text[j] == quote && !(j + 1 < |text| && text[j + 1] == quote) ==>
              Unquote(quote, text[from..]) == Closed(buf, j + 1 - from)
    ensures j < |text| && quote == '"' && text[j] in "$`" ==> Unquote(quote, text[from..]) == Dollar
  {
    assert j < |text| ==> text[j..][0] == text[j];
    assert j + 1 < |text| ==> text[j..][1] == text[j + 1];
    assert buf + "" == buf;
  }

  /** The inner loop of both string forms: scan from `from`, just after the opening quote. */
  method ScanString(text: string, from: nat, quote: char, line: nat) returns (q: Quoted, newLine: nat)
    requires from <= |text| && quote != '\n'
    ensures q == Unquote(quote, text[from..])
    ensures q.Closed? ==> newLine == line + Newlines(q.value)
  {
    var j, buf := from, "";
    newLine := line;
    while true
      invariant from <= j <= |text|
      invariant newLine == line + Newlines(buf)
      invariant ReadSoFar(quote, text, from, j, buf)
      decreases |text| - j
    {
      ReadEnd(quote, text, from, j, buf);
      if j >= |text| {
        return Unclosed, newLine;
      }
      var c := text[j];
      NewlinesAdd(buf, [c]);
      if c == quote {
        if j + 1 < |text| && text[j + 1] == quote {
          ReadPair(quote, text, from, j, buf);
          buf := buf + [quote];
          j := j + 2;
          continue;
        }
        return Closed(buf, j + 1 - from), newLine;
      }
      if quote == '"' && c in "$`" {
        return Dollar, newLine;
      }
      ReadOne(quote, text, from, j, buf);
      if c == '\n' {
        newLine := newLine + 1;
      }
      buf := buf + [c];
      j := j + 1;
    }
  }

  /** The branches of the tokenizer's loop, at a position inside the text. */
  method TakeStep(text: string, i: nat, line: nat) returns (step: Step)
    requires i < |text|
    ensures step == Next(text[i..], line)
  {
    var c := text[i];
    var s := text[i..];
    if c == '\n' {
      step := Took([Lexeme(NewLine, line)], 1, line + 1);
    } else if c in " \t\r" {
      step := Took([], 1, line);
    } else if c == '#' {
      var j := i + 1;
      while j < |text| && text[j] != '\n'
        invariant i + 1 <= j <= |text|
        invariant CommentLength(s[1..]) == j - (i + 1) + CommentLength(text[j..])
      {
        assert text[j..][1..] == text[j + 1..];
        j := j + 1;
      }
      step := Took([], j - i, line);
    } else if "@{" <= s {
      step := Took([Lexeme(OpenTable, line)], 2, line);
    } else if "@(" <= s {
      step := Took([Lexeme(OpenArray, line)], 2, line);
    } else if c == '}' {
      step := Took([Lexeme(CloseTable, line)], 1, line);
    } else if c == ')' {
      step := Took([Lexeme(CloseArray, line)], 1, line);
    } else if c == '=' {
      step := Took([Lexeme(Equals, line)], 1, line);
    } else if c in ",;" {
      step := Took([Lexeme(Separator, line)], 1, line);
    } else if c == '\'' || c == '"' {
      var q, after := ScanString(text, i + 1, c, line);
      assert s[1..] == text[i + 1..];
      match q {
        case Unclosed => step := Fail(if c == '"' then UnterminatedDouble(line) else UnterminatedSingle(line));
        case Dollar => step := Fail(Interpolation(line));
        case Closed(value, used) => step := Took([Lexeme(Str(value), line)], used + 1, after);
      }
    } else if WordStart(c) {
      var n := 1 + WordLength(s[1..]);
      step := Took([Lexeme(Word(s[..n]), line)], n, line);
    } else {
      step := Fail(Unsupported(line));
    }
  }

  /** `_tokenize` */
  method Tokenize(text: string) returns (r: Lexed)
    ensures r == Lex(text, 1)
    ensures r.Ok? ==> Ended(r.value)
  {
    hide Next;
    var tokens: seq<Lexeme> := [];
    var i: nat, line: nat := 0, 1;
    assert text[0..] == text;
    assert Lex(text, 1).Ok? ==> tokens + Lex(text, 1).value == Lex(text, 1).value;
    while i < |text|
      invariant i <= |text|
      invariant Emit(tokens, Lex(text[i..], line)) == Lex(text, 1)
    {
      var step := TakeStep(text, i, line);
      if step.Fail? {
        return Err(step.error);
      }
      assert text[i..][step.used..] == text[i + step.used..];
      EmitEmit(tokens, step.tokens, Lex(text[i + step.used..], step.line));
      tokens := tokens + step.tokens;
      i, line := i + step.used, step.line;
    }
    r := Ok(tokens + [Lexeme(Eof, line)]);
    LexEnds(text, 1);
  }
}
