/** The recursive-descent parser of `setup.py` over the tokens of a manifest. */
module Psd1Parser {
  import opened Prelude
  import opened Psd1Lexer

  datatype Value = Text(s: string) | Array(items: seq<Value>) | Table(entries: map<string, Value>)

  datatype Error =
    | Lexical(error: LexError)
    | ExpectedTable(line: nat)
    | TrailingContent(line: nat)
    | ExpectedKey(line: nat)
    | ExpectedEquals(line: nat)
    | UnquotedValue(line: nat)
    | ExpectedValue(line: nat)
    | UnterminatedArray(line: nat)

  type Tokens = seq<Lexeme>

  /** A parsed value and the position after it. */
  datatype Parsed = Parsed(value: Value, next: nat)

  predicate IsBreak(t: Lexeme) {
    t.tok.NewLine? || t.tok.Separator?
  }

  /** `_skip_separators`, from position `i` */
  function SkipBreaks(ts: Tokens, i: nat): (j: nat)
    requires Ended(ts) && i < |ts|
    ensures i <= j < |ts| && !IsBreak(ts[j])
    decreases |ts| - i
  {
    if IsBreak(ts[i]) then SkipBreaks(ts, i + 1) else i
  }

  function SkipNewLines(ts: Tokens, i: nat): (j: nat)
    requires Ended(ts) && i < |ts|
    ensures i <= j < |ts| && !ts[j].tok.NewLine?
    decreases |ts| - i
  {
    if ts[i].tok.NewLine? then SkipNewLines(ts, i + 1) else i
  }

  /** `_parse_hashtable_body`, with the entries read so far; a repeated key overwrites. */
  function ParseTable(ts: Tokens, i: nat, entries: map<string, Value>): (r: Result<Parsed, Error>)
    requires Ended(ts) && i < |ts|
    ensures r.Ok? ==> i < r.value.next < |ts|
    decreases |ts| - i, 0
  {
    var j := SkipBreaks(ts, i);
    if ts[j].tok.CloseTable? then Ok(Parsed(Table(entries), j + 1))
    else if !ts[j].tok.Word? && !ts[j].tok.Str? then Err(ExpectedKey(ts[j].line))
    else if !ts[j + 1].tok.Equals? then Err(ExpectedEquals(ts[j + 1].line))
    else match ParseValue(ts, j + 2)
         case Err(e) => Err(e)
         case Ok(p) => ParseTable(ts, p.next, entries[ts[j].tok.value := p.value])
  }

  /** `_parse_array_body`, with the items read so far. */
  function ParseArray(ts: Tokens, i: nat, items: seq<Value>): (r: Result<Parsed, Error>)
    requires Ended(ts) && i < |ts|
    ensures r.Ok? ==> i < r.value.next < |ts|
    decreases |ts| - i, 2
  {
    var j := SkipBreaks(ts, i);
    if ts[j].tok.CloseArray? then Ok(Parsed(Array(items), j + 1))
    else if ts[j].tok.Eof? then Err(UnterminatedArray(ts[j].line))
    else match ParseValue(ts, j)
         case Err(e) => Err(e)
         case Ok(p) => ParseArray(ts, p.next, items + [p.value])
  }

  /** `_parse_value` */
  function ParseValue(ts: Tokens, i: nat): (r: Result<Parsed, Error>)
    requires Ended(ts) && i < |ts|
    ensures r.Ok? ==> i < r.value.next < |ts|
    decreases |ts| - i, 1
  {
    var j := SkipNewLines(ts, i);
    match ts[j].tok
    case OpenTable => ParseTable(ts, j + 1, map[])
    case OpenArray => ParseArray(ts, j + 1, [])
    case Str(s) => Ok(Parsed(Text(s), j + 1))
    case Word(_) => Err(UnquotedValue(ts[j].line))
    case _ => Err(ExpectedValue(ts[j].line))
  }

  /** `parse_document` */
  function ParseDocument(ts: Tokens): Result<Value, Error>
    requires Ended(ts)
  {
    var i := SkipBreaks(ts, 0);
    if !ts[i].tok.OpenTable? then Err(ExpectedTable(ts[i].line))
    else match ParseTable(ts, i + 1, map[])
         case Err(e) => Err(e)
         case Ok(p) =>
           var j := SkipBreaks(ts, p.next);
           if ts[j].tok.Eof? then Ok(p.value) else Err(TrailingContent(ts[j].line))
  }

  /** `parse_psd1` */
  function Parse(text: string): Result<Value, Error> {
    match Lex(text, 1)
    case Err(e) => Err(Lexical(e))
    case Ok(ts) => LexEnds(text, 1); ParseDocument(ts)
  }

  // ---- the parser object ----

  class Parser {
    const tokens: Tokens
    var i: nat

    /** The cursor is inside the token list: never past the end token. */
    ghost predicate Valid()
      reads this
    {
      i < |tokens| && Ended(tokens)
    }

    constructor (tokens: Tokens)
      requires Ended(tokens)
      ensures Valid() && i == 0 && this.tokens == tokens
    {
      this.tokens := tokens;
      i := 0;
    }

    /** The outcome is the expected one, and the cursor stands after what was parsed. */
    ghost predicate Did(r: Result<Value, Error>, expected: Result<Parsed, Error>)
      reads this
    {
      && Valid()
      && match expected
         case Err(e) => r == Err(e)
         case Ok(p) => r == Ok(p.value) && i == p.next
    }

    function Peek(): Lexeme
      requires Valid()
      reads this
    {
      tokens[i]
    }

    /** Only ever called in front of the end token. */
    method Next() returns (t: Lexeme)
      requires Valid() && !tokens[i].tok.Eof?
      modifies this
      ensures Valid() && i == old(i) + 1 && t == tokens[old(i)]
    {
      t := tokens[i];
      i := i + 1;
    }

    method SkipSeparators()
      requires Valid()
      modifies this
      ensures Valid() && i == SkipBreaks(tokens, old(i))
    {
      while IsBreak(Peek())
        invariant Valid() && SkipBreaks(tokens, i) == SkipBreaks(tokens, old(i))
        decreases |tokens| - i
      {
        var _ := Next();
      }
    }

    method ParseHashtableBody() returns (r: Result<Value, Error>)
      requires Valid()
      modifies this
      ensures Did(r, ParseTable(tokens, old(i), map[]))
      decreases |tokens| - i, 0
    {
      var table: map<string, Value> := map[];
      while true
        invariant Valid() && i >= old(i)
        invariant ParseTable(tokens, i, table) == ParseTable(tokens, old(i), map[])
        decreases |tokens| - i
      {
        SkipSeparators();
        var kind := Peek().tok;
        if kind.CloseTable? {
          var _ := Next();
          return Ok(Table(table));
        }
        if !kind.Word? && !kind.Str? {
          return Err(ExpectedKey(Peek().line));
        }
        var key := Next();
        if !Peek().tok.Equals? {
          return Err(ExpectedEquals(Peek().line));
        }
        var _ := Next();
        var v := ParseOneValue();
        if v.Err? {
          return v;
        }
        table := table[key.tok.value := v.value];
      }
    }

    method ParseOneValue() returns (r: Result<Value, Error>)
      requires Valid()
      modifies this
      ensures Did(r, ParseValue(tokens, old(i)))
      decreases |tokens| - i, 1
    {
      while Peek().tok.NewLine?
        invariant Valid() && i >= old(i) && SkipNewLines(tokens, i) == SkipNewLines(tokens, old(i))
        decreases |tokens| - i
      {
        var _ := Next();
      }
      var t := Peek();
      match t.tok {
        case OpenTable =>
          var _ := Next();
          r := ParseHashtableBody();
        case OpenArray =>
          var _ := Next();
          r := ParseArrayBody();
        case Str(s) =>
          var _ := Next();
          r := Ok(Text(s));
        case Word(_) => r := Err(UnquotedValue(t.line));
        case _ => r := Err(ExpectedValue(t.line));
      }
    }

    method ParseArrayBody() returns (r: Result<Value, Error>)
      requires Valid()
      modifies this
      ensures Did(r, ParseArray(tokens, old(i), []))
      decreases |tokens| - i, 2
    {
      var items: seq<Value> := [];
      while true
        invariant Valid() && i >= old(i)
        invariant ParseArray(tokens, i, items) == ParseArray(tokens, old(i), [])
        decreases |tokens| - i
      {
        SkipSeparators();
        var t := Peek();
        if t.tok.CloseArray? {
          var _ := Next();
          return Ok(Array(items));
        }
        if t.tok.Eof? {
          return Err(UnterminatedArray(t.line));
        }
        var v := ParseOneValue();
        if v.Err? {
          return v;
        }
        items := items + [v.value];
      }
    }

    method ParseWholeDocument() returns (r: Result<Value, Error>)
      requires Valid() && i == 0
      modifies this
      ensures r == ParseDocument(tokens)
    {
      SkipSeparators();
      if !Peek().tok.OpenTable? {
        return Err(ExpectedTable(Peek().line));
      }
      var _ := Next();
      r := ParseHashtableBody();
      if r.Err? {
        return;
      }
      SkipSeparators();
      if !Peek().tok.Eof? {
        r := Err(TrailingContent(Peek().line));
      }
    }
  }

  /** `parse_psd1`: every text gives a value or an error. */
  method ParsePsd1(text: string) returns (r: Result<Value, Error>)
    ensures r == Parse(text)
  {
    var ts := Tokenize(text);
    if ts.Err? {
      return Err(Lexical(ts.error));
    }
    var p := new Parser(ts.value);
    r := p.ParseWholeDocument();
  }
}
