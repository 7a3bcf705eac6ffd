/** The parser accepts printed manifests and nothing else: whatever it accepts can be read back as one. */
module Psd1Acceptance {
  import opened Prelude
  import opened Psd1Lexer
  import opened Psd1Parser
  import opened Psd1RoundTrip

  // ---- what the tokenizer has consumed ----

  /** The tokens of `s` are those of `ts` from `i` on. */
  ghost predicate Gives(s: string, line: nat, ts: Tokens, i: nat) {
    i < |ts| && Lex(s, line) == Ok(ts[i..])
  }

  /** The next step adds a token, or the text is at its end. */
  ghost predicate AtToken(s: string, line: nat) {
    s != "" ==> Next(s, line).Took? && Next(s, line).tokens != []
  }

  /** One step, and where the tokens stand after it. */
  lemma Advance(s: string, line: nat, ts: Tokens, i: nat)
    requires Ended(ts) && Gives(s, line, ts, i) && s != ""
    ensures var step := Next(s, line);
            && step.Took? && |step.tokens| <= 1 && i + |step.tokens| < |ts|
            && (step.tokens != [] ==> ts[i] == step.tokens[0])
            && Gives(s[step.used..], step.line, ts, i + |step.tokens|)
  {
    hide Next;
    var step := Next(s, line);
    AtMostOneToken(s, line);
    var rest := Lex(s[step.used..], step.line);
    assert rest.Ok? && ts[i..] == step.tokens + rest.value;
    LexEnds(s[step.used..], step.line);
    assert rest.value == ts[i..][|step.tokens|..] == ts[i + |step.tokens|..];
  }

  lemma AtMostOneToken(s: string, line: nat)
    requires s != "" && Next(s, line).Took?
    ensures |Next(s, line).tokens| <= 1
  {
  }

  lemma EndsHere(line: nat, ts: Tokens, i: nat)
    requires Gives("", line, ts, i)
    ensures i == |ts| - 1 && ts[i].tok.Eof?
  {
    assert ts[i..] == [Lexeme(Eof, line)];
    assert ts[i] == ts[i..][0];
  }

  /** Only blanks and comments give no token; only line breaks, commas and semicolons give a break. */
  lemma LayoutStepIs(s: string, line: nat)
    requires s != "" && Next(s, line).Took?
    requires Next(s, line).tokens == [] || IsBreak(Next(s, line).tokens[0])
    ensures var step := Next(s, line);
            if s[0] == '#' then step.used == 1 + CommentLength(s[1..]) && step.tokens == []
            else s[0] in " \t\r\n,;" && step.used == 1
  {
  }

  lemma {:induction false} CommentPrefix(s: string, lay: string)
    requires lay <= s && CommentLength(s) <= |lay|
    ensures CommentLength(lay) == CommentLength(s)
  {
    if s != "" && s[0] != '\n' {
      CommentPrefix(s[1..], lay[1..]);
    }
  }

  lemma {:induction false} CommentStops(s: string)
    ensures var n := CommentLength(s); n == |s| || s[n] == '\n'
  {
    if s != "" && s[0] != '\n' {
      CommentStops(s[1..]);
    }
  }

  /** The first step of a layout put before the rest of it. */
  lemma LayoutGrows(s: string, line: nat, lay: string, body: string)
    requires s != "" && Next(s, line).Took?
    requires Next(s, line).tokens == [] || IsBreak(Next(s, line).tokens[0])
    requires s[Next(s, line).used..] == lay + body && IsLayout(lay, body == "")
    requires body != "" ==> body[0] != '\n'
    ensures var used := Next(s, line).used;
            s == (s[..used] + lay) + body && IsLayout(s[..used] + lay, body == "")
  {
    hide Next;
    LayoutStepIs(s, line);
    var used := Next(s, line).used;
    var all := s[..used] + lay;
    assert s == all + body;
    if s[0] == '#' {
      assert all[1..] <= s[1..];
      CommentPrefix(s[1..], all[1..]);
      CommentStops(s[1..]);
      assert all[used..] == lay;
    } else {
      assert all[1..] == lay;
    }
  }

  lemma NoNewLineAtToken(s: string, line: nat, ts: Tokens, i: nat)
    requires Ended(ts) && Gives(s, line, ts, i) && s != "" && !IsBreak(ts[i])
    ensures s[0] != '\n'
  {
    Advance(s, line, ts, i);
  }

  /** What the parser skips is layout, up to the text of the next token. */
  lemma {:induction false} SkippedIsLayout(s: string, line: nat, ts: Tokens, i: nat)
    returns (lay: string, body: string, line': nat)
    requires Ended(ts) && Gives(s, line, ts, i)
    ensures s == lay + body && IsLayout(lay, body == "")
    ensures Gives(body, line', ts, SkipBreaks(ts, i)) && AtToken(body, line')
    decreases |s|
  {
    hide Next, IsLayout, Lex;
    lay, body, line' := "", s, line;
    if s == "" {
      EndsHere(line, ts, i);
      NoLayout(true);
    } else {
      Advance(s, line, ts, i);
      var step := Next(s, line);
      if step.tokens == [] || IsBreak(ts[i]) {
        var more;
        more, body, line' := SkippedIsLayout(s[step.used..], step.line, ts, i + |step.tokens|);
        if body != "" {
          NoNewLineAtToken(body, line', ts, SkipBreaks(ts, i));
        }
        LayoutGrows(s, line, more, body);
        lay := s[..step.used] + more;
      } else {
        NoLayout(false);
      }
    }
  }

  lemma NoLayout(last: bool)
    ensures IsLayout("", last)
  {
  }

  /** The skipped tokens are those of the layout. */
  lemma SkippedTokens(lay: string, body: string, line: nat, line': nat, ts: Tokens, i: nat, j: nat)
    requires IsLayout(lay, body == "") && Gives(lay + body, line, ts, i) && Gives(body, line', ts, j) && i <= j
    ensures LayoutTokens(lay, line).tokens == ts[i..j]
  {
    hide Lex, IsLayout, LayoutTokens;
    var out := LayoutTokens(lay, line);
    if body == "" {
      assert lay + body == lay + "";
    }
    LexLayout(lay, body == "", body, line);
    SameLength(body, out.line, line');
    var rest := Lex(body, out.line).value;
    assert ts[i..] == out.tokens + rest && |rest| == |ts[j..]|;
    assert out.tokens == ts[i..][..|out.tokens|] == ts[i..j];
  }

  /** How many tokens a text has does not depend on the line it starts on. */
  lemma {:induction false} SameLength(s: string, line: nat, line': nat)
    ensures Lex(s, line).Ok? <==> Lex(s, line').Ok?
    ensures Lex(s, line).Ok? ==> |Lex(s, line).value| == |Lex(s, line').value|
    decreases |s|
  {
    if s != "" {
      SameStep(s, line, line');
      hide Next;
      if Next(s, line).Took? {
        SameLength(s[Next(s, line).used..], Next(s, line).line, Next(s, line').line);
      }
    }
  }

  lemma SameStep(s: string, line: nat, line': nat)
    requires s != ""
    ensures Next(s, line).Took? <==> Next(s, line').Took?
    ensures Next(s, line).Took? ==> Next(s, line).used == Next(s, line').used
                                    && |Next(s, line).tokens| == |Next(s, line').tokens|
  {
  }

  /** Layout without a token is blank: a comment inside would be followed by a line break. */
  lemma {:induction false} SilentIsGap(lay: string, line: nat)
    requires IsLayout(lay, false) && LayoutTokens(lay, line).tokens == []
    ensures IsGap(lay)
    decreases |lay|
  {
    if lay != "" {
      if lay[0] == '#' {
        CommentStops(lay[1..]);
        assert false;
      } else {
        var first := LayoutToken(lay[0], line);
        assert first.tokens == [];
        SilentIsGap(lay[1..], first.line);
      }
    }
  }

  // ---- what a token is written as ----

  lemma {:induction false} UnquotedIsDoubled(quote: char, s: string)
    requires Unquote(quote, s).Closed?
    ensures var q := Unquote(quote, s);
            s == Doubled(quote, q.value, s[q.used..]) && NotAt(quote, s[q.used..]) && FitsQuote(q.value, quote)
  {
    var q := Unquote(quote, s);
    if s[0] == quote && |s| > 1 && s[1] == quote {
      var q' := Unquote(quote, s[2..]);
      UnquotedIsDoubled(quote, s[2..]);
      assert q.value[1..] == q'.value && s[q.used..] == s[2..][q'.used..];
      assert s == [quote, quote] + s[2..];
    } else if s[0] == quote {
      assert s == [quote] + s[1..];
    } else {
      var q' := Unquote(quote, s[1..]);
      UnquotedIsDoubled(quote, s[1..]);
      assert q.value[1..] == q'.value && s[q.used..] == s[1..][q'.used..];
      assert s == [s[0]] + s[1..];
    }
  }

  lemma {:induction false} WordIsParts(s: string)
    ensures var n := WordLength(s); forall k :: 0 <= k < n ==> WordPart(s[k])
  {
    if s != "" && WordPart(s[0]) {
      WordIsParts(s[1..]);
    }
  }

  /** The text behind the first token. */
  function Rest(s: string, line: nat): string
    requires s != "" && Next(s, line).Took?
  {
    s[Next(s, line).used..]
  }

  lemma MarkIsWritten(s: string, line: nat)
    requires s != "" && Next(s, line).Took? && Next(s, line).tokens != []
    ensures var tok := Next(s, line).tokens[0].tok;
            && (tok.OpenTable? ==> s == "@{" + Rest(s, line)) && (tok.OpenArray? ==> s == "@(" + Rest(s, line))
            && (tok.CloseTable? ==> s == "}" + Rest(s, line)) && (tok.CloseArray? ==> s == ")" + Rest(s, line))
            && (tok.Equals? ==> s == "=" + Rest(s, line))
  {
  }

  /** A string token stands in quotes, and is not followed by another of the same. */
  lemma StringIsWritten(s: string, line: nat) returns (w: Written)
    requires s != "" && Next(s, line).Took? && Next(s, line).tokens != [] && Next(s, line).tokens[0].tok.Str?
    ensures !w.form.Bare? && WellWritten(w) && w.text == Next(s, line).tokens[0].tok.value
    ensures s == PrintWord(w, Rest(s, line)) && NotAt(QuoteOf(w.form), Rest(s, line))
  {
    StringStep(s, line);
    hide Next;
    var q := Unquote(s[0], s[1..]);
    w := Written(q.value, if s[0] == '\'' then Single else Double);
    UnquotedIsDoubled(s[0], s[1..]);
    assert s[1..][q.used..] == Rest(s, line);
    assert s == [s[0]] + s[1..];
  }

  lemma StringStep(s: string, line: nat)
    requires s != "" && Next(s, line).Took? && Next(s, line).tokens != [] && Next(s, line).tokens[0].tok.Str?
    ensures s[0] == '\'' || s[0] == '"'
    ensures Unquote(s[0], s[1..]).Closed?
    ensures var q := Unquote(s[0], s[1..]);
            Next(s, line).used == 1 + q.used && Next(s, line).tokens[0].tok.value == q.value
  {
  }

  /** A word token stands as it is. */
  lemma WordIsWritten(s: string, line: nat) returns (w: Written)
    requires s != "" && Next(s, line).Took? && Next(s, line).tokens != [] && Next(s, line).tokens[0].tok.Word?
    ensures w.form.Bare? && WellWritten(w) && w.text == Next(s, line).tokens[0].tok.value
    ensures s == PrintWord(w, Rest(s, line))
  {
    WordStep(s, line);
    hide Next;
    var n := 1 + WordLength(s[1..]);
    w := Written(s[..n], Bare);
    WordIsParts(s[1..]);
    assert forall k :: 1 <= k < n ==> s[k] == s[1..][k - 1];
  }

  lemma WordStep(s: string, line: nat)
    requires s != "" && Next(s, line).Took? && Next(s, line).tokens != [] && Next(s, line).tokens[0].tok.Word?
    ensures var n := 1 + WordLength(s[1..]);
            WordStart(s[0]) && Next(s, line).used == n && Next(s, line).tokens[0].tok.value == s[..n]
  {
  }

  // ---- reading a manifest back ----

  /** The first token of a text that stands at one, and the text behind it. */
  lemma TakeToken(s: string, line: nat, ts: Tokens, i: nat)
    requires Ended(ts) && Gives(s, line, ts, i) && AtToken(s, line) && !ts[i].tok.Eof?
    ensures s != "" && Next(s, line).Took? && Next(s, line).tokens != [] && Next(s, line).tokens[0] == ts[i]
    ensures i + 1 < |ts| && Gives(Rest(s, line), Next(s, line).line, ts, i + 1)
  {
    hide Next;
    if s == "" {
      EndsHere(line, ts, i);
    } else {
      Advance(s, line, ts, i);
    }
  }

  /** A key, in quotes or bare. */
  lemma KeyIsWritten(s: string, line: nat, ts: Tokens, i: nat) returns (w: Written)
    requires Ended(ts) && Gives(s, line, ts, i) && AtToken(s, line) && (ts[i].tok.Word? || ts[i].tok.Str?)
    ensures WellWritten(w) && w.text == ts[i].tok.value && i + 1 < |ts|
    ensures s != "" && Next(s, line).Took? && s == PrintWord(w, Rest(s, line))
    ensures Gives(Rest(s, line), Next(s, line).line, ts, i + 1)
  {
    hide Next;
    TakeToken(s, line, ts, i);
    if ts[i].tok.Word? {
      w := WordIsWritten(s, line);
    } else {
      w := StringIsWritten(s, line);
    }
  }

  /** An equals sign with nothing but blanks before it. */
  lemma EqualsIsWritten(s: string, line: nat, ts: Tokens, i: nat) returns (gap: string, rest: string, line': nat)
    requires Ended(ts) && Gives(s, line, ts, i) && ts[i].tok.Equals?
    ensures IsGap(gap) && s == gap + ("=" + rest) && i + 1 < |ts| && Gives(rest, line', ts, i + 1)
  {
    hide Next, Lex, IsLayout, LayoutTokens;
    var body, l;
    gap, body, l := SkippedIsLayout(s, line, ts, i);
    assert SkipBreaks(ts, i) == i;
    SkippedTokens(gap, body, line, l, ts, i, i);
    assert ts[i..i] == [];
    TakeToken(body, l, ts, i);
    SilentIsGap(gap, line);
    MarkIsWritten(body, l);
    rest, line' := Rest(body, l), Next(body, l).line;
  }

  lemma {:induction false} NewLinesBefore(ts: Tokens, i: nat)
    requires Ended(ts) && i < |ts|
    ensures var j := SkipNewLines(ts, i);
            && (forall k :: i <= k < j ==> ts[k].tok.NewLine?)
            && (!IsBreak(ts[j]) ==> SkipBreaks(ts, i) == j)
    decreases |ts| - i
  {
    if ts[i].tok.NewLine? {
      NewLinesBefore(ts, i + 1);
    }
  }

  /** Up to a value stand blanks, comments and line breaks. */
  lemma SpaceIsWritten(s: string, line: nat, ts: Tokens, i: nat) returns (space: string, body: string, line': nat)
    requires Ended(ts) && Gives(s, line, ts, i)
    requires var tok := ts[SkipNewLines(ts, i)].tok; !tok.NewLine? && !tok.Separator? && !tok.Eof?
    ensures IsSpace(space) && s == space + body
    ensures Gives(body, line', ts, SkipNewLines(ts, i)) && AtToken(body, line')
  {
    hide Next, Lex, IsLayout, LayoutTokens;
    var j := SkipNewLines(ts, i);
    NewLinesBefore(ts, i);
    space, body, line' := SkippedIsLayout(s, line, ts, i);
    SkippedTokens(space, body, line, line', ts, i, j);
    TakeToken(body, line', ts, j);
    forall t | t in LayoutTokens(space, line).tokens ensures t.tok.NewLine? {
      assert t in ts[i..j];
    }
    SpaceIsNewLines(space, line, 0);
  }

  /** A text that was read behind `after`, and may not start with a quote. */
  lemma NoMerge(w: Written, after: string, next: Written, text: string)
    requires !w.form.Bare? && NotAt(QuoteOf(w.form), after + PrintWord(next, text)) && Merge(w, next)
    ensures after != ""
  {
    assert "" + PrintWord(next, text) == PrintWord(next, text);
  }

  lemma {:induction false} ValueIsWritten(s: string, line: nat, ts: Tokens, i: nat)
    returns (d: Doc, rest: string, line': nat)
    requires Ended(ts) && Gives(s, line, ts, i) && AtToken(s, line) && !ts[i].tok.NewLine? && ParseValue(ts, i).Ok?
    ensures LaidOut(d) && s == Print(d, rest)
    ensures Meaning(d) == ParseValue(ts, i).value.value && Gives(rest, line', ts, ParseValue(ts, i).value.next)
    ensures d.DText? ==> NotAt(QuoteOf(d.word.form), rest)
    decreases |ts| - i, 1
  {
    hide Next, Lex, IsLayout, ParseTable, ParseArray;
    TakeToken(s, line, ts, i);
    var inner, lead := Rest(s, line), "";
    match ts[i].tok
    case OpenTable =>
      MarkIsWritten(s, line);
      var es;
      lead, es, rest, line' := TableIsWritten(inner, Next(s, line).line, ts, i + 1, map[]);
      d := DTable(lead, es);
    case OpenArray =>
      MarkIsWritten(s, line);
      var ds;
      lead, ds, rest, line' := ArrayIsWritten(inner, Next(s, line).line, ts, i + 1, []);
      d := DArray(lead, ds);
      assert [] + MeaningOfItems(ds) == MeaningOfItems(ds);
    case Str(v) =>
      var w := StringIsWritten(s, line);
      d, rest, line' := DText(w), inner, Next(s, line).line;
  }

  /** A value is parsed from the first token that is no line break. */
  lemma ValueStart(ts: Tokens, i: nat)
    requires Ended(ts) && i < |ts| && ParseValue(ts, i).Ok?
    ensures var j := SkipNewLines(ts, i);
            && !ts[j].tok.NewLine? && !ts[j].tok.Separator? && !ts[j].tok.Eof? && ParseValue(ts, j) == ParseValue(ts, i)
  {
    ValuesSkipAlike(ts, i, SkipNewLines(ts, i));
  }

  lemma {:induction false} TableIsWritten(s: string, line: nat, ts: Tokens, i: nat, entries: map<string, Value>)
    returns (lead: string, es: Entries, rest: string, line': nat)
    requires Ended(ts) && Gives(s, line, ts, i) && ParseTable(ts, i, entries).Ok?
    ensures IsLayout(lead, false) && EntriesLaidOut(es) && s == lead + PrintEntries(es, "}" + rest)
    ensures Table(MeaningOfEntries(es, entries)) == ParseTable(ts, i, entries).value.value
    ensures Gives(rest, line', ts, ParseTable(ts, i, entries).value.next)
    decreases |ts| - i, 0
  {
    hide Next, Lex, IsSpace, IsLayout, IsGap, ParseValue, LaidOut, WellWritten, PrintWord;
    var j := SkipBreaks(ts, i);
    var body, l;
    lead, body, l := SkippedIsLayout(s, line, ts, i);
    TakeToken(body, l, ts, j);
    if ts[j].tok.CloseTable? {
      MarkIsWritten(body, l);
      es, rest, line' := NoEntries, Rest(body, l), Next(body, l).line;
    } else {
      var key, gap, space, valueText, l2 := EntryIsWritten(body, l, ts, j);
      var d, more, l3 := ValueIsWritten(valueText, l2, ts, SkipNewLines(ts, j + 2));
      var p := ParseValue(ts, j + 2).value;
      var after, es';
      after, es', rest, line' := TableIsWritten(more, l3, ts, p.next, entries[key.text := p.value]);
      es := Entries(key, gap, space, d, after, es');
      EntryLaidOut(es, "}" + rest);
    }
  }

  lemma EntryLaidOut(es: Entries, text: string)
    requires es.Entries? && WellWritten(es.key) && IsGap(es.gap) && IsSpace(es.space) && LaidOut(es.value)
    requires IsLayout(es.after, false) && EntriesLaidOut(es.rest)
    requires es.value.DText? ==> NotAt(QuoteOf(es.value.word.form), es.after + PrintEntries(es.rest, text))
    ensures EntriesLaidOut(es)
  {
    hide IsGap, IsSpace, IsLayout, WellWritten, PrintWord;
    if es.value.DText? && es.rest.Entries? && Merge(es.value.word, es.rest.key) {
      NoMerge(es.value.word, es.after, es.rest.key, PrintEntriesTail(es.rest, text));
    }
  }

  /** The key of an entry and its equals sign, up to the value. */
  lemma EntryIsWritten(s: string, line: nat, ts: Tokens, i: nat)
    returns (key: Written, gap: string, space: string, valueText: string, line': nat)
    requires Ended(ts) && Gives(s, line, ts, i) && AtToken(s, line) && (ts[i].tok.Word? || ts[i].tok.Str?)
    requires i + 2 < |ts| && ts[i + 1].tok.Equals? && ParseValue(ts, i + 2).Ok?
    ensures WellWritten(key) && key.text == ts[i].tok.value && IsGap(gap) && IsSpace(space)
    ensures s == PrintWord(key, gap + ("=" + (space + valueText)))
    ensures var j := SkipNewLines(ts, i + 2);
            && Gives(valueText, line', ts, j) && AtToken(valueText, line') && !ts[j].tok.NewLine?
            && ParseValue(ts, j) == ParseValue(ts, i + 2)
  {
    hide Next, Lex, IsSpace, IsLayout, IsGap, ParseValue, WellWritten, PrintWord;
    key := KeyIsWritten(s, line, ts, i);
    var behind, l;
    gap, behind, l := EqualsIsWritten(Rest(s, line), Next(s, line).line, ts, i + 1);
    ValueStart(ts, i + 2);
    space, valueText, line' := SpaceIsWritten(behind, l, ts, i + 2);
  }

  /** What is printed behind the first key. */
  function PrintEntriesTail(es: Entries, rest: string): string
    requires es.Entries?
  {
    es.gap + ("=" + (es.space + Print(es.value, es.after + PrintEntries(es.rest, rest))))
  }

  lemma {:induction false} ArrayIsWritten(s: string, line: nat, ts: Tokens, i: nat, items: seq<Value>)
    returns (lead: string, ds: Docs, rest: string, line': nat)
    requires Ended(ts) && Gives(s, line, ts, i) && ParseArray(ts, i, items).Ok?
    ensures IsLayout(lead, false) && ItemsLaidOut(ds) && s == lead + PrintItems(ds, ")" + rest)
    ensures Array(items + MeaningOfItems(ds)) == ParseArray(ts, i, items).value.value
    ensures Gives(rest, line', ts, ParseArray(ts, i, items).value.next)
    decreases |ts| - i, 2
  {
    hide Next, Lex, IsLayout, ParseValue, WellWritten, PrintWord;
    var j := SkipBreaks(ts, i);
    var body, l;
    lead, body, l := SkippedIsLayout(s, line, ts, i);
    TakeToken(body, l, ts, j);
    if ts[j].tok.CloseArray? {
      MarkIsWritten(body, l);
      ds, rest, line' := NoDocs, Rest(body, l), Next(body, l).line;
      assert items + [] == items;
    } else {
      var d, more, l3 := ValueIsWritten(body, l, ts, j);
      var p := ParseValue(ts, j).value;
      var after, ds';
      after, ds', rest, line' := ArrayIsWritten(more, l3, ts, p.next, items + [p.value]);
      if d.DText? && ds'.Docs? && ds'.head.DText? && Merge(d.word, ds'.head.word) {
        NoMerge(d.word, after, ds'.head.word, ds'.after + PrintItems(ds'.tail, ")" + rest));
      }
      ds := Docs(d, after, ds');
      assert items + [p.value] + MeaningOfItems(ds') == items + MeaningOfItems(ds);
    }
  }

  /** A text parses exactly if it is a printed manifest, and then to what the manifest means: nothing else is
      accepted, and nothing is read in another sense. */
  lemma ParsesIffPrinted(text: string, v: Value)
    ensures Parse(text) == Ok(v) <==>
            exists d: Doc, lead: string, trail: string :: PrintedAs(text, d, lead, trail) && Meaning(d) == v
  {
    hide Parse, PrintedAs;
    if Parse(text) == Ok(v) {
      var d, lead, trail := ParsedIsPrinted(text);
      assert PrintedAs(text, d, lead, trail) && Meaning(d) == v;
    }
    if d: Doc, lead: string, trail: string :| PrintedAs(text, d, lead, trail) && Meaning(d) == v {
      PrintedIsParsed(text, d, lead, trail);
    }
  }

  /** `text` is the manifest `d`, laid out, between two layouts. */
  ghost predicate PrintedAs(text: string, d: Doc, lead: string, trail: string) {
    && d.DTable? && LaidOut(d) && IsLayout(lead, false) && IsLayout(trail, true)
    && text == lead + Print(d, trail)
  }

  lemma PrintedIsParsed(text: string, d: Doc, lead: string, trail: string)
    requires PrintedAs(text, d, lead, trail)
    ensures Parse(text) == Ok(Meaning(d))
  {
    ParseOfPrint(d, lead, trail);
  }

  lemma ParsedIsPrinted(text: string) returns (d: Doc, lead: string, trail: string)
    requires Parse(text).Ok?
    ensures PrintedAs(text, d, lead, trail) && Meaning(d) == Parse(text).value
  {
    hide Next, Lex, IsLayout, ParseTable, LaidOut;
    var ts := Lex(text, 1).value;
    LexEnds(text, 1);
    assert ts[0..] == ts;
    var i := SkipBreaks(ts, 0);
    var body, l;
    lead, body, l := SkippedIsLayout(text, 1, ts, 0);
    TakeToken(body, l, ts, i);
    MarkIsWritten(body, l);
    var inner, es, rest, l2 := TableIsWritten(Rest(body, l), Next(body, l).line, ts, i + 1, map[]);
    d := DTable(inner, es);
    var end, l3;
    trail, end, l3 := SkippedIsLayout(rest, l2, ts, ParseTable(ts, i + 1, map[]).value.next);
    NothingAtEnd(end, l3, ts, SkipBreaks(ts, ParseTable(ts, i + 1, map[]).value.next));
    assert trail + "" == trail;
    TableLaidOut(inner, es);
  }

  lemma NothingAtEnd(s: string, line: nat, ts: Tokens, i: nat)
    requires Ended(ts) && Gives(s, line, ts, i) && AtToken(s, line) && ts[i].tok.Eof?
    ensures s == ""
  {
    hide Next;
    if s != "" {
      Advance(s, line, ts, i);
      NextAddsNoEnd(s, line);
    }
  }

  lemma TableLaidOut(lead: string, es: Entries)
    requires IsLayout(lead, false) && EntriesLaidOut(es)
    ensures LaidOut(DTable(lead, es))
  {
  }
}
