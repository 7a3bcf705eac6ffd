/** Printing a manifest and parsing it gives the same tree back, in any layout. */
module Psd1RoundTrip {
  import opened Prelude
  import opened Psd1Lexer
  import opened Psd1Parser

  datatype Form = Single | Double | Bare

  /** A text as it is written down: in quotes of either kind or, where it is a key, bare. */
  datatype Written = Written(text: string, form: Form)

  /**
   A manifest as it is written down: entries in order, keys possibly repeated, and at each position the
   layout that stands there - after an opening (`lead`), around the equals sign (`gap`, `space`), and
   behind an item or entry (`after`).
   */
  datatype Doc = DText(word: Written) | DArray(lead: string, items: Docs) | DTable(lead: string, entries: Entries)
  datatype Docs = NoDocs | Docs(head: Doc, after: string, tail: Docs)
  datatype Entries =
    | NoEntries
    | Entries(key: Written, gap: string, space: string, value: Doc, after: string, rest: Entries)

  /** The value it stands for; of entries with the same key the last one counts. */
  function Meaning(d: Doc): Value {
    match d
    case DText(word) => Text(word.text)
    case DArray(_, items) => Array(MeaningOfItems(items))
    case DTable(_, entries) => Table(MeaningOfEntries(entries, map[]))
  }

  function MeaningOfItems(ds: Docs): seq<Value> {
    match ds
    case NoDocs => []
    case Docs(head, _, tail) => [Meaning(head)] + MeaningOfItems(tail)
  }

  function MeaningOfEntries(es: Entries, before: map<string, Value>): map<string, Value> {
    match es
    case NoEntries => before
    case Entries(key, _, _, value, _, rest) => MeaningOfEntries(rest, before[key.text := Meaning(value)])
  }

  // ---- layout ----

  /** White space, line breaks, commas, semicolons and comments; `last` allows a comment that runs to the
      end of the text. */
  predicate IsLayout(s: string, last: bool)
    decreases |s|
  {
    || s == ""
    || (s[0] in " \t\r\n,;" && IsLayout(s[1..], last))
    || (s[0] == '#' && var n := 1 + CommentLength(s[1..]); (n < |s| || last) && IsLayout(s[n..], last))
  }

  /** Layout that breaks the line at most, as an equals sign allows behind it. */
  predicate IsSpace(s: string) {
    IsLayout(s, false) && forall t :: t in LayoutTokens(s, 0).tokens ==> t.tok.NewLine?
  }

  /** Nothing but blanks, as an equals sign allows in front of it. */
  predicate IsGap(s: string) {
    forall i :: 0 <= i < |s| ==> s[i] in " \t\r"
  }

  predicate IsLetter(c: char) {
    'a' <= c <= 'z' || 'A' <= c <= 'Z' || c == '_'
  }

  /** A letter or underscore, then letters, digits, underscores, dots and dashes. */
  predicate IsBareWord(s: string) {
    && s != "" && IsLetter(s[0])
    && forall i :: 0 <= i < |s| ==> IsLetter(s[i]) || '0' <= s[i] <= '9' || s[i] == '.' || s[i] == '-'
  }

  /** Double quotes hold no `$` and no backtick; single quotes hold anything. */
  predicate FitsQuote(s: string, quote: char) {
    quote == '"' ==> '$' !in s && '`' !in s
  }

  predicate WellWritten(w: Written) {
    if w.form.Bare? then IsBareWord(w.text) else FitsQuote(w.text, QuoteOf(w.form))
  }

  function QuoteOf(form: Form): char
    requires !form.Bare?
  {
    if form.Single? then '\'' else '"'
  }

  /** Written one behind the other they would read as one: two strings in the same quotes. */
  predicate Merge(a: Written, b: Written) {
    !a.form.Bare? && a.form == b.form
  }

  /** The layout is such at each position, and no two strings in the same quotes touch. */
  predicate LaidOut(d: Doc) {
    match d
    case DText(word) => !word.form.Bare? && WellWritten(word)
    case DArray(lead, items) => IsLayout(lead, false) && ItemsLaidOut(items)
    case DTable(lead, entries) => IsLayout(lead, false) && EntriesLaidOut(entries)
  }

  predicate ItemsLaidOut(ds: Docs) {
    match ds
    case NoDocs => true
    case Docs(head, after, tail) =>
      && LaidOut(head) && IsLayout(after, false) && ItemsLaidOut(tail)
      && (head.DText? && tail.Docs? && tail.head.DText? && Merge(head.word, tail.head.word) ==> after != "")
  }

  predicate EntriesLaidOut(es: Entries) {
    match es
    case NoEntries => true
    case Entries(key, gap, space, value, after, rest) =>
      && WellWritten(key) && IsGap(gap) && IsSpace(space) && LaidOut(value)
      && IsLayout(after, false) && EntriesLaidOut(rest)
      && (value.DText? && rest.Entries? && Merge(value.word, rest.key) ==> after != "")
  }

  // ---- printing in front of `rest` ----

  /** The text of a string after its opening quote, quotes doubled. */
  function Doubled(quote: char, s: string, rest: string): string {
    if s == "" then [quote] + rest
    else if s[0] == quote then [quote, quote] + Doubled(quote, s[1..], rest)
    else [s[0]] + Doubled(quote, s[1..], rest)
  }

  function PrintWord(w: Written, rest: string): string {
    if w.form.Bare? then w.text + rest else [QuoteOf(w.form)] + Doubled(QuoteOf(w.form), w.text, rest)
  }

  function Print(d: Doc, rest: string): string {
    match d
    case DText(word) => PrintWord(word, rest)
    case DArray(lead, items) => "@(" + (lead + PrintItems(items, ")" + rest))
    case DTable(lead, entries) => "@{" + (lead + PrintEntries(entries, "}" + rest))
  }

  function PrintItems(ds: Docs, rest: string): string {
    match ds
    case NoDocs => rest
    case Docs(head, after, tail) => Print(head, after + PrintItems(tail, rest))
  }

  function PrintEntries(es: Entries, rest: string): string {
    match es
    case NoEntries => rest
    case Entries(key, gap, space, value, after, more) =>
      PrintWord(key, gap + ("=" + (space + Print(value, after + PrintEntries(more, rest)))))
  }

  // ---- the tokens of a printed manifest ----

  /** Tokens, and the line the text after them starts on. */
  datatype Out = Out(tokens: Tokens, line: nat)

  function Then(a: Out, b: Out): Out {
    Out(a.tokens + b.tokens, b.line)
  }

  function One(tok: Token, line: nat): Out {
    Out([Lexeme(tok, line)], line)
  }

  /** One character of layout: the tokens it gives, and the line after it. */
  function LayoutToken(c: char, line: nat): Out {
    if c == '\n' then Out([Lexeme(NewLine, line)], line + 1)
    else if c in ",;" then Out([Lexeme(Separator, line)], line)
    else Out([], line)
  }

  function LayoutTokens(s: string, line: nat): Out
    decreases |s|
  {
    if s == "" then Out([], line)
    else if s[0] == '#' then LayoutTokens(s[1 + CommentLength(s[1..])..], line)
    else
      var first := LayoutToken(s[0], line);
      Then(first, LayoutTokens(s[1..], first.line))
  }

  function WordTokens(w: Written, line: nat): Out {
    if w.form.Bare? then One(Word(w.text), line) else Out([Lexeme(Str(w.text), line)], line + Newlines(w.text))
  }

  function TokensOf(d: Doc, line: nat): Out {
    match d
    case DText(word) => WordTokens(word, line)
    case DArray(lead, items) =>
      var l := LayoutTokens(lead, line);
      var inner := TokensOfItems(items, l.line);
      Then(One(OpenArray, line), Then(l, Then(inner, One(CloseArray, inner.line))))
    case DTable(lead, entries) =>
      var l := LayoutTokens(lead, line);
      var inner := TokensOfEntries(entries, l.line);
      Then(One(OpenTable, line), Then(l, Then(inner, One(CloseTable, inner.line))))
  }

  function TokensOfItems(ds: Docs, line: nat): Out {
    match ds
    case NoDocs => Out([], line)
    case Docs(head, after, tail) =>
      var a := TokensOf(head, line);
      var b := LayoutTokens(after, a.line);
      Then(a, Then(b, TokensOfItems(tail, b.line)))
  }

  function TokensOfEntries(es: Entries, line: nat): Out {
    match es
    case NoEntries => Out([], line)
    case Entries(key, _, space, value, after, rest) =>
      var k := WordTokens(key, line);
      var sp := LayoutTokens(space, k.line);
      var v := TokensOf(value, sp.line);
      var b := LayoutTokens(after, v.line);
      Then(k, Then(One(Equals, k.line), Then(sp, Then(v, Then(b, TokensOfEntries(rest, b.line))))))
  }

  // ---- lexing what was printed ----

  /** `s` on line `line` lexes to the tokens of `out`, followed by those of `rest`. */
  ghost predicate LexesTo(s: string, line: nat, out: Out, rest: string) {
    Lex(s, line) == Emit(out.tokens, Lex(rest, out.line))
  }

  lemma LexThen(s: string, line: nat, a: Out, mid: string, b: Out, rest: string)
    requires LexesTo(s, line, a, mid) && LexesTo(mid, a.line, b, rest)
    ensures LexesTo(s, line, Then(a, b), rest)
  {
    EmitEmit(a.tokens, b.tokens, Lex(rest, b.line));
  }

  lemma LexChar(c: char, rest: string, line: nat)
    requires c in "=)}"
    ensures LexesTo([c] + rest, line, One(if c == '=' then Equals else if c == ')' then CloseArray else CloseTable, line), rest)
  {
    var text := [c] + rest;
    assert text[0] == c && text[1..] == rest;
    assert Next(text, line) == Took([Lexeme(if c == '=' then Equals else if c == ')' then CloseArray else CloseTable, line)], 1, line);
    LexStep(text, line);
  }

  lemma LexOpen(c: char, rest: string, line: nat)
    requires c == '{' || c == '('
    ensures LexesTo(['@', c] + rest, line, One(if c == '(' then OpenArray else OpenTable, line), rest)
  {
    var s := ['@', c] + rest;
    assert s[2..] == rest;
    assert "@{" == ['@', '{'] && "@(" == ['@', '('];
    assert "@{" <= s <==> s[1] == '{';
    assert "@(" <= s <==> s[1] == '(';
  }

  lemma EmitNothing(r: Lexed)
    ensures Emit([], r) == r
  {
    if r.Ok? {
      assert [] + r.value == r.value;
    }
  }

  lemma LexLayoutChar(c: char, rest: string, line: nat)
    requires c in " \t\r\n,;"
    ensures LexesTo([c] + rest, line, LayoutToken(c, line), rest)
  {
    var text, out := [c] + rest, LayoutToken(c, line);
    assert text[0] == c && text[1..] == rest;
    assert Next(text, line) == Took(out.tokens, 1, out.line);
    LexStep(text, line);
  }

  lemma {:induction false} CommentInside(s: string, rest: string)
    requires CommentLength(s) < |s| || rest == ""
    ensures CommentLength(s + rest) == CommentLength(s)
  {
    if rest == "" {
      assert s + rest == s;
    } else if s[0] != '\n' {
      CommentInside(s[1..], rest);
      assert (s + rest)[1..] == s[1..] + rest;
    }
  }

  /** The layout behind the first comment or character. */
  function LayoutRest(s: string): string
    requires s != ""
  {
    if s[0] == '#' then s[1 + CommentLength(s[1..])..] else s[1..]
  }

  /** A comment gives no token. */
  lemma LexComment(s: string, rest: string, line: nat)
    requires s != "" && s[0] == '#' && (1 + CommentLength(s[1..]) < |s| || rest == "")
    ensures Lex(s + rest, line) == Lex(LayoutRest(s) + rest, line)
  {
    var text, n := s + rest, 1 + CommentLength(s[1..]);
    assert text[0] == '#' && text[1..] == s[1..] + rest && text[n..] == s[n..] + rest;
    CommentInside(s[1..], rest);
    assert Next(text, line) == Took([], n, line);
    LexStep(text, line);
    EmitNothing(Lex(text[n..], line));
  }

  lemma LayoutStep(s: string, last: bool, line: nat)
    requires IsLayout(s, last) && s != ""
    ensures IsLayout(LayoutRest(s), last)
    ensures if s[0] == '#'
            then (1 + CommentLength(s[1..]) < |s| || last) && LayoutTokens(s, line) == LayoutTokens(LayoutRest(s), line)
            else s[0] in " \t\r\n,;"
                 && LayoutTokens(s, line)
                    == Then(LayoutToken(s[0], line), LayoutTokens(LayoutRest(s), LayoutToken(s[0], line).line))
  {
  }

  lemma {:induction false} LexLayout(s: string, last: bool, rest: string, line: nat)
    requires IsLayout(s, last) && (last ==> rest == "")
    ensures LexesTo(s + rest, line, LayoutTokens(s, line), rest)
    decreases |s|
  {
    if s == "" {
      LexNoLayout(rest, line);
    } else {
      LexMoreLayout(s, last, rest, line);
    }
  }

  lemma LexNoLayout(rest: string, line: nat)
    ensures LexesTo("" + rest, line, LayoutTokens("", line), rest)
  {
    assert "" + rest == rest;
    EmitNothing(Lex(rest, line));
  }

  lemma {:induction false} LexMoreLayout(s: string, last: bool, rest: string, line: nat)
    requires s != "" && IsLayout(s, last) && (last ==> rest == "")
    ensures LexesTo(s + rest, line, LayoutTokens(s, line), rest)
    decreases |s|, 0
  {
    hide Lex, IsLayout, LayoutTokens, CommentLength;
    LayoutStep(s, last, line);
    if s[0] == '#' {
      LexComment(s, rest, line);
      LexLayout(LayoutRest(s), last, rest, line);
    } else {
      var first := LayoutToken(s[0], line);
      assert s + rest == [s[0]] + (s[1..] + rest);
      LexLayoutChar(s[0], s[1..] + rest, line);
      LexLayout(s[1..], last, rest, first.line);
      LexThen(s + rest, line, first, s[1..] + rest, LayoutTokens(s[1..], first.line), rest);
    }
  }

  /** Blanks give no token and end no line. */
  lemma {:induction false} LexGap(s: string, rest: string, line: nat)
    requires IsGap(s)
    ensures Lex(s + rest, line) == Lex(rest, line)
  {
    hide Lex;
    if s == "" {
      assert s + rest == rest;
    } else {
      assert s + rest == [s[0]] + (s[1..] + rest);
      LexLayoutChar(s[0], s[1..] + rest, line);
      EmitNothing(Lex(s[1..] + rest, line));
      LexGap(s[1..], rest, line);
    }
  }

  /** `rest` does not go on with this quote. */
  predicate NotAt(quote: char, rest: string) {
    rest == "" || rest[0] != quote
  }

  predicate NoQuote(rest: string) {
    NotAt('\'', rest) && NotAt('"', rest)
  }

  lemma UnquoteEnd(quote: char, rest: string)
    requires NotAt(quote, rest)
    ensures var q := Unquote(quote, [quote] + rest); q == Closed("", 1) && ([quote] + rest)[q.used..] == rest
  {
  }

  /** What one printed character contributes. */
  lemma UnquoteFirst(quote: char, c: char, tail: string)
    requires Unquote(quote, tail).Closed? && !(quote == '"' && c in "$`")
    ensures var text, q := if c == quote then [quote, quote] + tail else [c] + tail, Unquote(quote, tail);
            var q' := Unquote(quote, text);
            q'.Closed? && q'.value == [c] + q.value && text[q'.used..] == tail[q.used..]
  {
    var used := Unquote(quote, tail).used;
    if c == quote {
      var text := [quote, quote] + tail;
      assert text[0] == text[1] == quote && text[2..] == tail && text[2 + used..] == tail[used..];
    } else {
      var text := [c] + tail;
      assert text[0] == c && text[1..] == tail && text[1 + used..] == tail[used..];
    }
  }

  lemma {:induction false} UnquoteDoubled(quote: char, s: string, rest: string)
    requires NotAt(quote, rest) && FitsQuote(s, quote)
    ensures var q := Unquote(quote, Doubled(quote, s, rest));
            q.Closed? && q.value == s && Doubled(quote, s, rest)[q.used..] == rest
  {
    hide Unquote;
    if s == "" {
      UnquoteEnd(quote, rest);
    } else {
      UnquoteDoubled(quote, s[1..], rest);
      UnquoteFirst(quote, s[0], Doubled(quote, s[1..], rest));
      assert s == [s[0]] + s[1..];
    }
  }

  lemma LexQuoted(w: Written, rest: string, line: nat)
    requires !w.form.Bare? && WellWritten(w) && NotAt(QuoteOf(w.form), rest)
    ensures LexesTo(PrintWord(w, rest), line, WordTokens(w, line), rest)
  {
    var text := PrintWord(w, rest);
    NextOfQuoted(w, rest, line);
    LexStep(text, line);
  }

  lemma NextOfQuoted(w: Written, rest: string, line: nat)
    requires !w.form.Bare? && WellWritten(w) && NotAt(QuoteOf(w.form), rest)
    ensures var text, out := PrintWord(w, rest), WordTokens(w, line);
            var step := Next(text, line);
            step.Took? && step.tokens == out.tokens && step.line == out.line && text[step.used..] == rest
  {
    var quote := QuoteOf(w.form);
    var text, inner := PrintWord(w, rest), Doubled(quote, w.text, rest);
    assert text[0] == quote && text[1..] == inner;
    UnquoteDoubled(quote, w.text, rest);
    NextAtQuote(quote, text, line);
    var used := Unquote(quote, inner).used;
    assert text[1 + used..] == inner[used..];
  }

  /** A bare word ends where a character stands that cannot be in one. */
  lemma {:induction false} WordLengthOf(s: string, rest: string)
    requires forall i :: 0 <= i < |s| ==> WordPart(s[i])
    requires rest != "" ==> !WordPart(rest[0])
    ensures WordLength(s + rest) == |s|
  {
    if s == "" {
      assert s + rest == rest;
    } else {
      assert (s + rest)[1..] == s[1..] + rest;
      WordLengthOf(s[1..], rest);
    }
  }

  lemma LexBare(s: string, rest: string, line: nat)
    requires IsBareWord(s) && (rest != "" ==> !WordPart(rest[0]))
    ensures LexesTo(s + rest, line, One(Word(s), line), rest)
  {
    hide Lex;
    var text := s + rest;
    assert text[0] == s[0] && text[1..] == s[1..] + rest && text[..|s|] == s && text[|s|..] == rest;
    WordLengthOf(s[1..], rest);
    NextAtWord(text, line);
    LexStep(text, line);
  }

  lemma NextAtWord(text: string, line: nat)
    requires text != "" && IsLetter(text[0])
    ensures var n := 1 + WordLength(text[1..]); Next(text, line) == Took([Lexeme(Word(text[..n]), line)], n, line)
  {
    assert "@{"[0] == '@' && "@("[0] == '@';
  }

  lemma LexStep(text: string, line: nat)
    requires text != "" && Next(text, line).Took?
    ensures var step := Next(text, line);
            Lex(text, line) == Emit(step.tokens, Lex(text[step.used..], step.line))
  {
  }

  lemma NextAtQuote(quote: char, text: string, line: nat)
    requires text != "" && text[0] == quote && (quote == '\'' || quote == '"')
    ensures Next(text, line) == NextString(quote, text, line)
  {
  }

  /** What follows a string, where its own quote must not stand. */
  lemma LayoutNoQuote(quote: char, s: string, last: bool, rest: string)
    requires quote == '\'' || quote == '"'
    requires IsLayout(s, last) && (s != "" || NotAt(quote, rest))
    ensures NotAt(quote, s + rest)
  {
    if s == "" {
      assert s + rest == rest;
    }
  }

  lemma LexInside(open: char, close: char, lead: string, text: string, inner: Out, rest: string, line: nat)
    requires (open == '(' && close == ')') || (open == '{' && close == '}')
    requires IsLayout(lead, false)
    requires LexesTo(text, LayoutTokens(lead, line).line, inner, [close] + rest)
    ensures var l := LayoutTokens(lead, line);
            LexesTo(['@', open] + (lead + text), line,
                    Then(One(if open == '(' then OpenArray else OpenTable, line),
                         Then(l, Then(inner, One(if open == '(' then CloseArray else CloseTable, inner.line)))), rest)
  {
    hide Lex;
    var l := LayoutTokens(lead, line);
    var closed := One(if open == '(' then CloseArray else CloseTable, inner.line);
    LexChar(close, rest, inner.line);
    LexThen(text, l.line, inner, [close] + rest, closed, rest);
    LexLayout(lead, false, text, line);
    LexThen(lead + text, line, l, text, Then(inner, closed), rest);
    LexOpen(open, lead + text, line);
    LexThen(['@', open] + (lead + text), line, One(if open == '(' then OpenArray else OpenTable, line), lead + text,
            Then(l, Then(inner, closed)), rest);
  }

  lemma {:induction false} LexDoc(d: Doc, rest: string, line: nat)
    requires LaidOut(d) && (d.DText? ==> NotAt(QuoteOf(d.word.form), rest))
    ensures LexesTo(Print(d, rest), line, TokensOf(d, line), rest)
    decreases d, 1
  {
    hide LexesTo;
    match d
    case DText(word) => LexQuoted(word, rest, line);
    case DArray(lead, items) =>
      var l := LayoutTokens(lead, line);
      LexItems(items, ")" + rest, l.line);
      assert ")" + rest == [')'] + rest && ['@', '('] == "@(";
      LexInside('(', ')', lead, PrintItems(items, ")" + rest), TokensOfItems(items, l.line), rest, line);
    case DTable(lead, entries) =>
      var l := LayoutTokens(lead, line);
      LexEntries(entries, "}" + rest, l.line);
      assert "}" + rest == ['}'] + rest && ['@', '{'] == "@{";
      LexInside('{', '}', lead, PrintEntries(entries, "}" + rest), TokensOfEntries(entries, l.line), rest, line);
  }

  lemma {:induction false} LexItems(ds: Docs, rest: string, line: nat)
    requires ItemsLaidOut(ds) && NoQuote(rest)
    ensures LexesTo(PrintItems(ds, rest), line, TokensOfItems(ds, line), rest)
    decreases ds, 0
  {
    match ds
    case NoDocs => EmitNothing(Lex(rest, line));
    case Docs(head, after, tail) =>
      hide LexesTo;
      var behind := PrintItems(tail, rest);
      var a := TokensOf(head, line);
      var b := LayoutTokens(after, a.line);
      if head.DText? {
        if after == "" {
          ItemsStart(head.word, tail, rest);
        }
        LayoutNoQuote(QuoteOf(head.word.form), after, false, behind);
      }
      LexDoc(head, after + behind, line);
      LexLayout(after, false, behind, a.line);
      LexItems(tail, rest, b.line);
      LexThen(after + behind, a.line, b, behind, TokensOfItems(tail, b.line), rest);
      LexThen(PrintItems(ds, rest), line, a, after + behind, Then(b, TokensOfItems(tail, b.line)), rest);
  }

  /** Only a string starts with a quote, and only with its own. */
  lemma ItemsStart(before: Written, ds: Docs, rest: string)
    requires !before.form.Bare? && NoQuote(rest) && ItemsLaidOut(ds)
    requires ds.Docs? && ds.head.DText? ==> !Merge(before, ds.head.word)
    ensures NotAt(QuoteOf(before.form), PrintItems(ds, rest))
  {
  }

  lemma EntriesStart(before: Written, es: Entries, rest: string)
    requires !before.form.Bare? && NoQuote(rest) && EntriesLaidOut(es)
    requires es.Entries? ==> !Merge(before, es.key)
    ensures NotAt(QuoteOf(before.form), PrintEntries(es, rest))
  {
  }

  lemma {:induction false} LexEntries(es: Entries, rest: string, line: nat)
    requires EntriesLaidOut(es) && NoQuote(rest)
    ensures LexesTo(PrintEntries(es, rest), line, TokensOfEntries(es, line), rest)
    decreases es, 0
  {
    match es
    case NoEntries => EmitNothing(Lex(rest, line));
    case Entries(key, gap, space, value, after, more) =>
      hide LexesTo;
      var behind := PrintEntries(more, rest);
      var k := WordTokens(key, line);
      var sp := LayoutTokens(space, k.line);
      var v := TokensOf(value, sp.line);
      var b := LayoutTokens(after, v.line);
      if value.DText? {
        if after == "" {
          EntriesStart(value.word, more, rest);
        }
        LayoutNoQuote(QuoteOf(value.word.form), after, false, behind);
      }
      LexDoc(value, after + behind, sp.line);
      LexLayout(after, false, behind, v.line);
      LexEntries(more, rest, b.line);
      LexThen(after + behind, v.line, b, behind, TokensOfEntries(more, b.line), rest);
      LexThen(Print(value, after + behind), sp.line, v, after + behind, Then(b, TokensOfEntries(more, b.line)), rest);
      LexKey(key, gap, space, Print(value, after + behind), Then(v, Then(b, TokensOfEntries(more, b.line))), rest, line);
  }

  /** Key, equals sign and what surrounds it, in front of the value and all behind it. */
  lemma LexKey(key: Written, gap: string, space: string, valueText: string, out: Out, rest: string, line: nat)
    requires WellWritten(key) && IsGap(gap) && IsLayout(space, false)
    requires LexesTo(valueText, LayoutTokens(space, WordTokens(key, line).line).line, out, rest)
    ensures var k := WordTokens(key, line);
            LexesTo(PrintWord(key, gap + ("=" + (space + valueText))), line,
                    Then(k, Then(One(Equals, k.line), Then(LayoutTokens(space, k.line), out))), rest)
  {
    hide Lex;
    var k := WordTokens(key, line);
    var sp := LayoutTokens(space, k.line);
    var equals := "=" + (space + valueText);
    LexLayout(space, false, valueText, k.line);
    LexThen(space + valueText, k.line, sp, valueText, out, rest);
    assert equals == ['='] + (space + valueText);
    LexChar('=', space + valueText, k.line);
    LexThen(equals, k.line, One(Equals, k.line), space + valueText, Then(sp, out), rest);
    LexGap(gap, equals, k.line);
    assert gap + equals != "" && (gap + equals)[0] in " \t\r=";
    LexWord(key, gap + equals, line);
    LexThen(PrintWord(key, gap + equals), line, k, gap + equals, Then(One(Equals, k.line), Then(sp, out)), rest);
  }

  /** A key in any of its forms, in front of blanks or an equals sign. */
  lemma LexWord(w: Written, rest: string, line: nat)
    requires WellWritten(w) && rest != "" && rest[0] in " \t\r="
    ensures LexesTo(PrintWord(w, rest), line, WordTokens(w, line), rest)
  {
    hide Lex, IsBareWord;
    if w.form.Bare? {
      LexBare(w.text, rest, line);
    } else {
      LexQuoted(w, rest, line);
    }
  }

  // ---- parsing the tokens ----

  /** `part` stands at position `i` of `ts`, with more behind it. */
  ghost predicate At(ts: Tokens, i: nat, part: Tokens) {
    i + |part| < |ts| && forall k :: 0 <= k < |part| ==> ts[i + k] == part[k]
  }

  lemma AtSplit(ts: Tokens, i: nat, a: Tokens, b: Tokens)
    requires At(ts, i, a + b)
    ensures At(ts, i, a) && At(ts, i + |a|, b)
  {
    forall k | 0 <= k < |a| ensures ts[i + k] == a[k] {
      assert (a + b)[k] == a[k];
    }
    forall k | 0 <= k < |b| ensures ts[i + |a| + k] == b[k] {
      assert (a + b)[|a| + k] == b[k] && ts[i + (|a| + k)] == (a + b)[|a| + k];
    }
  }

  lemma AtHead(ts: Tokens, i: nat, part: Tokens)
    requires At(ts, i, part) && part != []
    ensures i + 1 < |ts| && ts[i] == part[0]
  {
    assert ts[i + 0] == part[0];
  }

  lemma AtWhole(ts: Tokens, a: Tokens, b: Tokens, c: Tokens, end: Lexeme)
    requires ts == a + (b + (c + [end]))
    ensures At(ts, 0, a) && At(ts, |a|, b) && At(ts, |a| + |b|, c) && ts[|a| + |b| + |c|] == end
  {
    forall k | 0 <= k < |b| ensures ts[|a| + k] == b[k] {
      assert (b + (c + [end]))[k] == b[k];
    }
    forall k | 0 <= k < |c| ensures ts[|a| + |b| + k] == c[k] {
      assert (b + (c + [end]))[|b| + k] == (c + [end])[k];
    }
  }

  /** The parts of one entry: the item itself (or key and equals sign), and what surrounds the rest. */
  lemma AtParts(ts: Tokens, i: nat, a: Tokens, b: Tokens, c: Tokens, close: Tokens)
    requires At(ts, i, a + (b + c) + close)
    ensures i + |a| + |b| < |ts|
    ensures At(ts, i, a) && At(ts, i + |a|, b) && At(ts, i + |a| + |b|, c + close)
  {
    assert a + (b + c) + close == a + (b + (c + close));
    AtSplit(ts, i, a, b + (c + close));
    AtSplit(ts, i + |a|, b, c + close);
  }

  lemma {:induction false} LayoutIsBreaks(s: string, line: nat)
    ensures forall t :: t in LayoutTokens(s, line).tokens ==> IsBreak(t)
    decreases |s|
  {
    if s != "" {
      if s[0] == '#' {
        LayoutIsBreaks(s[1 + CommentLength(s[1..])..], line);
      } else {
        LayoutIsBreaks(s[1..], LayoutToken(s[0], line).line);
      }
    }
  }

  /** The kinds of the tokens do not depend on the line. */
  lemma {:induction false} SpaceIsNewLines(s: string, line: nat, line': nat)
    requires forall t :: t in LayoutTokens(s, line).tokens ==> t.tok.NewLine?
    ensures forall t :: t in LayoutTokens(s, line').tokens ==> t.tok.NewLine?
    decreases |s|
  {
    if s != "" {
      if s[0] == '#' {
        SpaceIsNewLines(s[1 + CommentLength(s[1..])..], line, line');
      } else {
        var a, b := LayoutToken(s[0], line), LayoutToken(s[0], line');
        var all := Then(a, LayoutTokens(s[1..], a.line)).tokens;
        assert forall t :: t in LayoutTokens(s[1..], a.line).tokens ==> t in all;
        assert forall t :: t in a.tokens ==> t in all;
        SpaceIsNewLines(s[1..], a.line, b.line);
      }
    }
  }

  lemma {:induction false} SkipOver(ts: Tokens, i: nat, n: nat)
    requires Ended(ts) && i + n < |ts|
    requires forall k :: i <= k < i + n ==> IsBreak(ts[k])
    ensures SkipBreaks(ts, i) == SkipBreaks(ts, i + n)
    decreases n
  {
    if n > 0 {
      SkipOver(ts, i + 1, n - 1);
    }
  }

  lemma SkipLayout(ts: Tokens, i: nat, s: string, line: nat)
    requires Ended(ts) && At(ts, i, LayoutTokens(s, line).tokens)
    ensures SkipBreaks(ts, i) == SkipBreaks(ts, i + |LayoutTokens(s, line).tokens|)
  {
    var part := LayoutTokens(s, line).tokens;
    LayoutIsBreaks(s, line);
    forall k | i <= k < i + |part| ensures IsBreak(ts[k]) {
      assert ts[i + (k - i)] == part[k - i];
    }
    SkipOver(ts, i, |part|);
  }

  lemma {:induction false} SkipNewLinesOver(ts: Tokens, i: nat, n: nat)
    requires Ended(ts) && i + n < |ts|
    requires forall k :: i <= k < i + n ==> ts[k].tok.NewLine?
    ensures SkipNewLines(ts, i) == SkipNewLines(ts, i + n)
    decreases n
  {
    if n > 0 {
      SkipNewLinesOver(ts, i + 1, n - 1);
    }
  }

  /** A value may be preceded by line breaks. */
  lemma ValueAfterSpace(ts: Tokens, i: nat, s: string, line: nat)
    requires Ended(ts) && IsSpace(s) && At(ts, i, LayoutTokens(s, line).tokens)
    ensures ParseValue(ts, i) == ParseValue(ts, i + |LayoutTokens(s, line).tokens|)
  {
    var part := LayoutTokens(s, line).tokens;
    SpaceIsNewLines(s, 0, line);
    forall k | i <= k < i + |part| ensures ts[k].tok.NewLine? {
      assert ts[i + (k - i)] == part[k - i];
    }
    SkipNewLinesOver(ts, i, |part|);
    ValuesSkipAlike(ts, i, i + |part|);
  }

  lemma ValuesSkipAlike(ts: Tokens, i: nat, j: nat)
    requires Ended(ts) && i < |ts| && j < |ts| && SkipNewLines(ts, i) == SkipNewLines(ts, j)
    ensures ParseValue(ts, i) == ParseValue(ts, j)
  {
  }

  /** Where the parts of an array or table stand: opening, layout, and what is inside with the closing. */
  lemma InsideParts(ts: Tokens, i: nat, open: Lexeme, l: Tokens, inner: Tokens, close: Lexeme)
    requires At(ts, i, [open] + (l + (inner + [close])))
    ensures i + 1 + |l| < |ts| && ts[i] == open
    ensures At(ts, i + 1, l) && At(ts, i + 1 + |l|, inner + [close])
  {
    hide At;
    AtHead(ts, i, [open] + (l + (inner + [close])));
    AtSplit(ts, i, [open], l + (inner + [close]));
    AtSplit(ts, i + 1, l, inner + [close]);
    AtHead(ts, i + 1 + |l|, inner + [close]);
  }

  lemma ParseText(ts: Tokens, i: nat, s: string)
    requires Ended(ts) && i < |ts| && ts[i].tok == Str(s)
    ensures ParseValue(ts, i) == Ok(Parsed(Text(s), i + 1))
  {
  }

  lemma {:induction false} ParseDoc(ts: Tokens, i: nat, d: Doc, line: nat)
    requires Ended(ts) && LaidOut(d) && At(ts, i, TokensOf(d, line).tokens)
    ensures ParseValue(ts, i) == Ok(Parsed(Meaning(d), i + |TokensOf(d, line).tokens|))
    decreases d, 1
  {
    hide ParseTable, ParseArray, ParseValue, At, SkipBreaks, LayoutTokens, TokensOfItems, TokensOfEntries, IsLayout;
    match d
    case DText(word) =>
      AtHead(ts, i, TokensOf(d, line).tokens);
      ParseText(ts, i, word.text);
    case DArray(lead, items) =>
      var l := LayoutTokens(lead, line);
      var inner := TokensOfItems(items, l.line);
      InsideParts(ts, i, Lexeme(OpenArray, line), l.tokens, inner.tokens, Lexeme(CloseArray, inner.line));
      ParseItems(ts, i + 1 + |l.tokens|, items, l.line, []);
      SkipLayout(ts, i + 1, lead, line);
      ItemsSkipAlike(ts, i + 1, i + 1 + |l.tokens|, []);
      ValueOpens(ts, i);
      assert [] + MeaningOfItems(items) == MeaningOfItems(items);
    case DTable(lead, entries) =>
      var l := LayoutTokens(lead, line);
      var inner := TokensOfEntries(entries, l.line);
      InsideParts(ts, i, Lexeme(OpenTable, line), l.tokens, inner.tokens, Lexeme(CloseTable, inner.line));
      ParseEntries(ts, i + 1 + |l.tokens|, entries, l.line, map[]);
      SkipLayout(ts, i + 1, lead, line);
      SkipsAlike(ts, i + 1, i + 1 + |l.tokens|, map[]);
      ValueOpens(ts, i);
  }

  lemma ValueOpens(ts: Tokens, i: nat)
    requires Ended(ts) && i + 1 < |ts|
    ensures ts[i].tok.OpenTable? ==> ParseValue(ts, i) == ParseTable(ts, i + 1, map[])
    ensures ts[i].tok.OpenArray? ==> ParseValue(ts, i) == ParseArray(ts, i + 1, [])
  {
  }

  lemma {:induction false} ParseItems(ts: Tokens, i: nat, ds: Docs, line: nat, before: seq<Value>)
    requires Ended(ts) && ItemsLaidOut(ds)
    requires var out := TokensOfItems(ds, line); At(ts, i, out.tokens + [Lexeme(CloseArray, out.line)])
    ensures ParseArray(ts, i, before)
            == Ok(Parsed(Array(before + MeaningOfItems(ds)), i + |TokensOfItems(ds, line).tokens| + 1))
    decreases ds, 0
  {
    hide SkipBreaks, At, LayoutTokens, TokensOf, ParseArray;
    match ds
    case NoDocs =>
      AtHead(ts, i, [] + [Lexeme(CloseArray, line)]);
      ArrayEnds(ts, i, before);
      assert before + [] == before;
    case Docs(head, after, tail) =>
      var a := TokensOf(head, line);
      var b := LayoutTokens(after, a.line);
      var c := TokensOfItems(tail, b.line);
      AtParts(ts, i, a.tokens, b.tokens, c.tokens, [Lexeme(CloseArray, c.line)]);
      DocStartsNoBreak(head, line);
      AtHead(ts, i, a.tokens);
      ParseDoc(ts, i, head, line);
      SkipLayout(ts, i + |a.tokens|, after, a.line);
      var j := i + |a.tokens| + |b.tokens|;
      ParseItems(ts, j, tail, b.line, before + [Meaning(head)]);
      ItemStep(ts, i, Parsed(Meaning(head), i + |a.tokens|), before, j);
      assert before + [Meaning(head)] + MeaningOfItems(tail) == before + MeaningOfItems(ds);
  }

  lemma ArrayEnds(ts: Tokens, i: nat, before: seq<Value>)
    requires Ended(ts) && i < |ts| && ts[i].tok.CloseArray?
    ensures ParseArray(ts, i, before) == Ok(Parsed(Array(before), i + 1))
  {
  }

  /** One item is read, and where the skipping after it starts makes no difference. */
  lemma ItemStep(ts: Tokens, i: nat, p: Parsed, before: seq<Value>, j: nat)
    requires Ended(ts) && i < |ts| && !IsBreak(ts[i]) && !ts[i].tok.CloseArray? && !ts[i].tok.Eof?
    requires ParseValue(ts, i) == Ok(p) && j < |ts| && p.next < |ts|
    requires SkipBreaks(ts, p.next) == SkipBreaks(ts, j)
    ensures ParseArray(ts, i, before) == ParseArray(ts, j, before + [p.value])
  {
    assert SkipBreaks(ts, i) == i;
    ItemsSkipAlike(ts, p.next, j, before + [p.value]);
  }

  lemma ItemsSkipAlike(ts: Tokens, i: nat, j: nat, items: seq<Value>)
    requires Ended(ts) && i < |ts| && j < |ts| && SkipBreaks(ts, i) == SkipBreaks(ts, j)
    ensures ParseArray(ts, i, items) == ParseArray(ts, j, items)
  {
  }

  lemma DocStartsNoBreak(d: Doc, line: nat)
    ensures TokensOf(d, line).tokens != []
    ensures var t := TokensOf(d, line).tokens[0]; !IsBreak(t) && !t.tok.CloseArray? && !t.tok.Eof?
  {
  }

  lemma {:induction false} ParseEntries(ts: Tokens, i: nat, es: Entries, line: nat, before: map<string, Value>)
    requires Ended(ts) && EntriesLaidOut(es)
    requires var out := TokensOfEntries(es, line); At(ts, i, out.tokens + [Lexeme(CloseTable, out.line)])
    ensures ParseTable(ts, i, before)
            == Ok(Parsed(Table(MeaningOfEntries(es, before)), i + |TokensOfEntries(es, line).tokens| + 1))
    decreases es, 0
  {
    hide ParseTable, ParseValue, SkipBreaks, At, LayoutTokens, TokensOf, IsSpace, IsLayout, IsGap, LaidOut;
    match es
    case NoEntries =>
      AtHead(ts, i, [] + [Lexeme(CloseTable, line)]);
      TableEnds(ts, i, before);
    case Entries(key, _, space, value, after, more) =>
      var k := WordTokens(key, line);
      var sp := LayoutTokens(space, k.line);
      var v := TokensOf(value, sp.line);
      var b := LayoutTokens(after, v.line);
      var m := TokensOfEntries(more, b.line);
      EntryParts(ts, i, k.tokens[0], sp, v, b, m, k.line);
      var at := i + 2 + |sp.tokens|;
      ValueAfterSpace(ts, i + 2, space, k.line);
      ParseDoc(ts, at, value, sp.line);
      SkipLayout(ts, at + |v.tokens|, after, v.line);
      var j := at + |v.tokens| + |b.tokens|;
      ParseEntries(ts, j, more, b.line, before[key.text := Meaning(value)]);
      EntryStep(ts, i, key.text, Parsed(Meaning(value), at + |v.tokens|), before, j);
  }

  lemma TableEnds(ts: Tokens, i: nat, before: map<string, Value>)
    requires Ended(ts) && i < |ts| && ts[i].tok.CloseTable?
    ensures ParseTable(ts, i, before) == Ok(Parsed(Table(before), i + 1))
  {
  }

  /** Where the parts of an entry stand: key, equals sign, what surrounds the value, and what follows. */
  lemma EntryParts(ts: Tokens, i: nat, key: Lexeme, sp: Out, v: Out, b: Out, m: Out, line': nat)
    requires At(ts, i, [key]
                       + ([Lexeme(Equals, line')] + (sp.tokens + (v.tokens + (b.tokens + m.tokens))))
                       + [Lexeme(CloseTable, m.line)])
    ensures i + 2 + |sp.tokens| + |v.tokens| + |b.tokens| < |ts|
    ensures ts[i] == key && ts[i + 1].tok == Equals
    ensures At(ts, i + 2, sp.tokens) && At(ts, i + 2 + |sp.tokens|, v.tokens)
    ensures At(ts, i + 2 + |sp.tokens| + |v.tokens|, b.tokens)
    ensures At(ts, i + 2 + |sp.tokens| + |v.tokens| + |b.tokens|, m.tokens + [Lexeme(CloseTable, m.line)])
  {
    hide At;
    var k, equals, close := [key], [Lexeme(Equals, line')], [Lexeme(CloseTable, m.line)];
    AtParts(ts, i, k, equals, sp.tokens + (v.tokens + (b.tokens + m.tokens)), close);
    var rest := b.tokens + m.tokens;
    AtParts(ts, i + 2, sp.tokens, v.tokens, rest, close);
    assert rest + close == b.tokens + (m.tokens + close);
    AtSplit(ts, i + 2 + |sp.tokens| + |v.tokens|, b.tokens, m.tokens + close);
    AtHead(ts, i, k);
    AtHead(ts, i + 1, equals);
    AtHead(ts, i + 2 + |sp.tokens| + |v.tokens| + |b.tokens|, m.tokens + close);
  }

  /** One entry is read, and where the skipping after it starts makes no difference. */
  lemma EntryStep(ts: Tokens, i: nat, key: string, p: Parsed, before: map<string, Value>, j: nat)
    requires Ended(ts) && i + 2 < |ts| && ts[i + 1].tok == Equals
    requires ts[i].tok == Str(key) || ts[i].tok == Word(key)
    requires ParseValue(ts, i + 2) == Ok(p) && j < |ts| && p.next < |ts|
    requires SkipBreaks(ts, p.next) == SkipBreaks(ts, j)
    ensures ParseTable(ts, i, before) == ParseTable(ts, j, before[key := p.value])
  {
    assert SkipBreaks(ts, i) == i;
    SkipsAlike(ts, p.next, j, before[key := p.value]);
  }

  lemma SkipsAlike(ts: Tokens, i: nat, j: nat, entries: map<string, Value>)
    requires Ended(ts) && i < |ts| && j < |ts| && SkipBreaks(ts, i) == SkipBreaks(ts, j)
    ensures ParseTable(ts, i, entries) == ParseTable(ts, j, entries)
  {
  }

  // ---- the round trip ----

  /** Parsing a printed manifest gives its meaning, whatever layout stands at each position. */
  lemma ParseOfPrint(d: Doc, lead: string, trail: string)
    requires d.DTable? && LaidOut(d) && IsLayout(lead, false) && IsLayout(trail, true)
    ensures Parse(lead + Print(d, trail)) == Ok(Meaning(d))
  {
    hide Parse, Lex, ParseDocument, LayoutTokens, TokensOf;
    var a := LayoutTokens(lead, 1);
    var b := TokensOf(d, a.line);
    var c := LayoutTokens(trail, b.line);
    var end := Lexeme(Eof, c.line);
    var text := lead + Print(d, trail);
    var ts := a.tokens + (b.tokens + (c.tokens + [end]));
    LexWhole(d, lead, trail);
    LexEnds(text, 1);
    AtWhole(ts, a.tokens, b.tokens, c.tokens, end);
    ParseWhole(ts, d, lead, trail, a, b, c);
    ParseSteps(text, ts);
  }

  lemma ParseSteps(text: string, ts: Tokens)
    requires Lex(text, 1) == Ok(ts) && Ended(ts)
    ensures Parse(text) == ParseDocument(ts)
  {
  }

  lemma LexWhole(d: Doc, lead: string, trail: string)
    requires d.DTable? && LaidOut(d) && IsLayout(lead, false) && IsLayout(trail, true)
    ensures var a := LayoutTokens(lead, 1);
            var b := TokensOf(d, a.line);
            var c := LayoutTokens(trail, b.line);
            Lex(lead + Print(d, trail), 1) == Ok(a.tokens + (b.tokens + (c.tokens + [Lexeme(Eof, c.line)])))
  {
    var body := Print(d, trail);
    var a := LayoutTokens(lead, 1);
    var b := TokensOf(d, a.line);
    var c := LayoutTokens(trail, b.line);
    LexLayout(lead, false, body, 1);
    LexDoc(d, trail, a.line);
    LexLayout(trail, true, "", b.line);
    assert trail + "" == trail;
    assert Lex("", c.line) == Ok([Lexeme(Eof, c.line)]);
  }

  lemma SkipToStop(ts: Tokens, i: nat, s: string, line: nat, n: nat)
    requires Ended(ts) && At(ts, i, LayoutTokens(s, line).tokens) && n == |LayoutTokens(s, line).tokens|
    requires !IsBreak(ts[i + n])
    ensures SkipBreaks(ts, i) == i + n
  {
    SkipLayout(ts, i, s, line);
  }

  lemma TableStarts(d: Doc, line: nat)
    requires d.DTable?
    ensures var part := TokensOf(d, line).tokens; part != [] && part[0].tok.OpenTable? && !IsBreak(part[0])
  {
  }

  lemma ParseWhole(ts: Tokens, d: Doc, lead: string, trail: string, a: Out, b: Out, c: Out)
    requires Ended(ts) && d.DTable? && LaidOut(d)
    requires a == LayoutTokens(lead, 1) && b == TokensOf(d, a.line) && c == LayoutTokens(trail, b.line)
    requires At(ts, 0, a.tokens) && At(ts, |a.tokens|, b.tokens) && At(ts, |a.tokens| + |b.tokens|, c.tokens)
    requires ts[|a.tokens| + |b.tokens| + |c.tokens|].tok.Eof?
    ensures ParseDocument(ts) == Ok(Meaning(d))
  {
    hide ParseTable, SkipBreaks, At, LayoutTokens, TokensOf, ParseDocument;
    var na, nb := |a.tokens|, |b.tokens|;
    TableStarts(d, a.line);
    AtHead(ts, na, b.tokens);
    SkipToStop(ts, 0, lead, 1, na);
    ParseDoc(ts, na, d, a.line);
    SkipToStop(ts, na + nb, trail, b.line, |c.tokens|);
    DocumentSteps(ts, na, Meaning(d), na + nb);
  }

  lemma DocumentSteps(ts: Tokens, i: nat, value: Value, next: nat)
    requires Ended(ts) && i < |ts| && next < |ts|
    requires SkipBreaks(ts, 0) == i && ts[i].tok.OpenTable?
    requires ParseValue(ts, i) == Ok(Parsed(value, next))
    requires ts[SkipBreaks(ts, next)].tok.Eof?
    ensures ParseDocument(ts) == Ok(value)
  {
  }
}
