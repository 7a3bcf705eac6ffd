/**
 `generate-coupled-skills.py`: a derived document is stored as an overlay on a canonical one - some
 blocks restated from the canonical text with tokens substituted, the others verbatim - and is
 regenerated from the two.
 */
module CoupledSkills {
  import opened Prelude
  import opened Strings
  import opened TokenSubstitution

  const PREAMBLE := "__preamble__"

  datatype Block = Block(key: string, text: string)

  // ---- splitting at headings ----

  /** A line that starts with two or three hashes and a space. */
  predicate HeadingAt(t: string, i: nat) {
    && i + 2 < |t| && (i == 0 || t[i - 1] == '\n')
    && t[i] == '#' && t[i + 1] == '#'
    && (t[i + 2] == ' ' || (t[i + 2] == '#' && i + 3 < |t| && t[i + 3] == ' '))
  }

  /** The first heading at or after `from`, or the end. */
  function NextHeading(t: string, from: nat): (k: nat)
    requires from <= |t|
    ensures from <= k <= |t| && (k < |t| ==> HeadingAt(t, k))
    decreases |t| - from
  {
    if from == |t| || HeadingAt(t, from) then from else NextHeading(t, from + 1)
  }

  lemma {:induction false} NoHeadingBefore(t: string, from: nat, j: nat)
    requires from <= |t| && from <= j < NextHeading(t, from)
    ensures !HeadingAt(t, j)
    decreases |t| - from
  {
    if j > from {
      NoHeadingBefore(t, from + 1, j);
    }
  }

  function LineEnd(t: string, i: nat): (k: nat)
    requires i <= |t|
    ensures i <= k <= |t|
    decreases |t| - i
  {
    if i == |t| || t[i] == '\n' then i else LineEnd(t, i + 1)
  }

  function HeadingKey(t: string, i: nat): string
    requires i <= |t|
  {
    StripRight(t[i..LineEnd(t, i)])
  }

  function BlocksFrom(t: string, i: nat): seq<Block>
    requires i <= |t|
    decreases |t| - i
  {
    if i == |t| then []
    else
      var end := NextHeading(t, i + 1);
      [Block(HeadingKey(t, i), t[i..end])] + BlocksFrom(t, end)
  }

  function Blocks(t: string): seq<Block> {
    var first := NextHeading(t, 0);
    if first == |t| then [Block(PREAMBLE, t)]
    else (if first > 0 then [Block(PREAMBLE, t[..first])] else []) + BlocksFrom(t, first)
  }

  function Keys(bs: seq<Block>): seq<string> {
    seq(|bs|, i requires 0 <= i < |bs| => bs[i].key)
  }

  function Texts(bs: seq<Block>): seq<string> {
    seq(|bs|, i requires 0 <= i < |bs| => bs[i].text)
  }

  /** The pieces cover `t` from `off` on, and every cut is at a heading, every heading at a cut. */
  ghost predicate AlignedFrom(t: string, off: nat, pieces: seq<string>)
    decreases |pieces|
  {
    if pieces == [] then off == |t|
    else
      var end := off + |pieces[0]|;
      && off < end <= |t| && t[off..end] == pieces[0]
      && (forall j :: off < j < end ==> !HeadingAt(t, j))
      && (end < |t| ==> HeadingAt(t, end))
      && AlignedFrom(t, end, pieces[1..])
  }

  lemma {:induction false} AlignedConcat(t: string, off: nat, pieces: seq<string>)
    requires off <= |t| && AlignedFrom(t, off, pieces)
    ensures Concat(pieces) == t[off..]
    decreases |pieces|
  {
    if pieces != [] {
      AlignedConcat(t, off + |pieces[0]|, pieces[1..]);
    }
  }

  lemma FirstText(t: string, i: nat)
    requires i < |t|
    ensures var end := NextHeading(t, i + 1);
            Texts(BlocksFrom(t, i)) == [t[i..end]] + Texts(BlocksFrom(t, end))
  {
  }

  lemma {:induction false} BlocksAreAligned(t: string, i: nat)
    requires i <= |t|
    ensures AlignedFrom(t, i, Texts(BlocksFrom(t, i)))
    decreases |t| - i
  {
    hide NextHeading, HeadingAt, HeadingKey;
    if i < |t| {
      var end := NextHeading(t, i + 1);
      FirstText(t, i);
      BlocksAreAligned(t, end);
      var pieces := Texts(BlocksFrom(t, i));
      assert pieces[0] == t[i..end] && |pieces[0]| == end - i;
      assert pieces[1..] == Texts(BlocksFrom(t, end));
      forall j | i < j < end ensures !HeadingAt(t, j) {
        NoHeadingBefore(t, i + 1, j);
      }
    }
  }

  lemma {:induction false} AlignedIsUnique(t: string, i: nat, pieces: seq<string>)
    requires i <= |t| && AlignedFrom(t, i, pieces)
    ensures pieces == Texts(BlocksFrom(t, i))
    decreases |pieces|
  {
    if pieces != [] {
      var end := i + |pieces[0]|;
      NextHeadingSkips(t, i + 1, end);
      AlignedIsUnique(t, end, pieces[1..]);
      FirstText(t, i);
      assert pieces == [pieces[0]] + pieces[1..];
    }
  }

  /** `split_blocks` is the one split of a non-empty text that cuts exactly at the headings (and
      whose pieces concatenate to the text). */
  lemma BlocksAreTheHeadingSplit(t: string, pieces: seq<string>)
    requires t != ""
    ensures pieces == Texts(Blocks(t)) <==> AlignedFrom(t, 0, pieces)
    ensures Concat(Texts(Blocks(t))) == t
  {
    PreambleIsFirstPiece(t);
    BlocksAreAligned(t, 0);
    AlignedConcat(t, 0, Texts(BlocksFrom(t, 0)));
    if AlignedFrom(t, 0, pieces) {
      AlignedIsUnique(t, 0, pieces);
    }
  }

  lemma BlocksShape(t: string)
    requires t != ""
    ensures var first := NextHeading(t, 0);
            && BlocksFrom(t, |t|) == [] && (first > 0 ==> NextHeading(t, 1) == first)
            && Blocks(t) == if first == |t| then [Block(PREAMBLE, t)]
                            else (if first > 0 then [Block(PREAMBLE, t[..first])] else []) + BlocksFrom(t, first)
  {
    hide HeadingAt, HeadingKey;
  }

  /** The preamble is cut like any other block; only its key differs. */
  lemma PreambleIsFirstPiece(t: string)
    requires t != ""
    ensures Texts(Blocks(t)) == Texts(BlocksFrom(t, 0))
  {
    hide HeadingKey, BlocksFrom, Blocks, HeadingAt, NextHeading;
    var first := NextHeading(t, 0);
    BlocksShape(t);
    FirstText(t, 0);
    if first == |t| {
      assert t[0..|t|] == t;
    } else if first > 0 {
      assert t[0..first] == t[..first];
      assert Texts(Blocks(t)) == [t[..first]] + Texts(BlocksFrom(t, first));
    } else {
      assert [] + BlocksFrom(t, 0) == BlocksFrom(t, 0);
    }
  }

  lemma {:induction false} NextHeadingSkips(t: string, from: nat, to: nat)
    requires from <= to <= |t|
    requires forall j :: from <= j < to ==> !HeadingAt(t, j)
    requires to == |t| || HeadingAt(t, to)
    ensures NextHeading(t, from) == to
    decreases |t| - from
  {
    if from < to {
      NextHeadingSkips(t, from + 1, to);
    }
  }

  /** Splitting loses nothing, on any text. */
  lemma BlocksConcat(t: string)
    ensures Concat(Texts(Blocks(t))) == t
  {
    if t != "" {
      BlocksAreTheHeadingSplit(t, []);
    }
  }

  // ---- what a heading is ----

  /** `line` is the whole line of `t` that starts at `i`. */
  ghost predicate IsLineAt(t: string, i: nat, line: string) {
    && i + |line| <= |t| && t[i..i + |line|] == line && '\n' !in line
    && (i == 0 || t[i - 1] == '\n') && (i + |line| == |t| || t[i + |line|] == '\n')
  }

  predicate IsHeading(line: string) {
    "## " <= line || "### " <= line
  }

  /** `key` is `line` without the white space at its end. */
  ghost predicate IsTrimmed(line: string, key: string) {
    && key <= line && (forall j :: |key| <= j < |line| ==> IsSpace(line[j]))
    && (key != "" ==> !IsSpace(key[|key| - 1]))
  }

  lemma {:induction false} LineEndIsFirst(t: string, i: nat)
    requires i <= |t|
    ensures var end := LineEnd(t, i); (end == |t| || t[end] == '\n') && forall j :: i <= j < end ==> t[j] != '\n'
    decreases |t| - i
  {
    if i < |t| && t[i] != '\n' {
      LineEndIsFirst(t, i + 1);
    }
  }

  lemma {:induction false} StripIsTrim(line: string)
    ensures IsTrimmed(line, StripRight(line))
  {
    if line != "" && IsSpace(line[|line| - 1]) {
      StripIsTrim(line[..|line| - 1]);
    }
  }

  /** A heading starts where a line starts that begins with two or three hashes and a space. */
  lemma HeadingAtIff(t: string, i: nat)
    ensures HeadingAt(t, i) <==> exists line :: IsLineAt(t, i, line) && IsHeading(line)
  {
    if HeadingAt(t, i) {
      HeadingHasLine(t, i);
    }
    if line :| IsLineAt(t, i, line) && IsHeading(line) {
      LineIsHeading(t, i, line);
    }
  }

  lemma HeadingHasLine(t: string, i: nat)
    requires HeadingAt(t, i)
    ensures exists line :: IsLineAt(t, i, line) && IsHeading(line)
  {
    LineEndIsFirst(t, i);
    var line := t[i..LineEnd(t, i)];
    assert IsLineAt(t, i, line) && IsHeading(line);
  }

  lemma LineIsHeading(t: string, i: nat, line: string)
    requires IsLineAt(t, i, line) && IsHeading(line)
    ensures HeadingAt(t, i)
  {
    assert forall j :: 0 <= j < |line| ==> t[i + j] == line[j];
  }

  /** A block under its heading line, whose trimmed text is its key. */
  ghost predicate Headed(b: Block) {
    exists line :: IsLineAt(b.text, 0, line) && IsHeading(line) && IsTrimmed(line, b.key)
  }

  lemma FirstIsHeaded(t: string, i: nat)
    requires i < |t| && HeadingAt(t, i)
    ensures Headed(BlocksFrom(t, i)[0])
  {
    hide IsSpace, StripRight;
    var end, stop := NextHeading(t, i + 1), LineEnd(t, i);
    LineEndIsFirst(t, i);
    assert stop <= end;
    var line := t[i..stop];
    assert IsHeading(line);
    StripIsTrim(line);
    assert IsLineAt(t[i..end], 0, line);
  }

  lemma {:induction false} BlocksAreHeaded(t: string, i: nat)
    requires i < |t| && HeadingAt(t, i)
    ensures forall b :: b in BlocksFrom(t, i) ==> Headed(b)
    decreases |t| - i
  {
    hide HeadingAt, HeadingKey, Headed;
    FirstIsHeaded(t, i);
    var end := NextHeading(t, i + 1);
    if end < |t| {
      BlocksAreHeaded(t, end);
    }
  }

  lemma PrefixStartsAlike(t: string, n: nat)
    requires n <= |t| && !HeadingAt(t, 0)
    ensures !HeadingAt(t[..n], 0)
  {
  }

  /** The key of a block is the heading line it starts with, without the white space behind it; only the
      first block may start with no heading, and then it is the preamble. */
  lemma KeysAreHeadingLines(t: string, k: nat)
    requires k < |Blocks(t)|
    ensures var b := Blocks(t)[k];
            || Headed(b)
            || (k == 0 && b.key == PREAMBLE && forall line :: IsLineAt(b.text, 0, line) ==> !IsHeading(line))
  {
    var first, b := NextHeading(t, 0), Blocks(t)[k];
    if first < |t| {
      BlocksAreHeaded(t, first);
    }
    if k == 0 && first > 0 {
      HeadingAtIff(b.text, 0);
      PrefixStartsAlike(t, first);
    } else if first < |t| {
      assert b in BlocksFrom(t, first);
    } else {
      HeadingAtIff(b.text, 0);
    }
  }

  // ---- overlays ----

  /** The `lines` field of a verbatim directive as JSON may have it. */
  datatype LinesField =
    | Missing
    | Lines(items: seq<string>)
    | BadItems                      // a list with an item that is no string
    | Iterable(items: seq<string>)  // no list, but iterating it gives strings
    | NotIterable

  datatype Directive =
    | Canonical(heading: Option<string>)  // None: missing, or no string
    | Verbatim(title: string, lines: LinesField)
    | UnknownOp(op: string)
    | NotAnObject

  datatype DirectivesField = NoKey | NoList | List(items: seq<Directive>)

  datatype Overlay = Overlay(hasCanonical: bool, hasDerived: bool, directives: DirectivesField)

  /** The last position of `key`, or -1: what a dictionary filled in order remembers. */
  function FindLast(keys: seq<string>, key: string): (i: int)
    ensures -1 <= i < |keys|
    ensures i >= 0 ==> keys[i] == key
    ensures forall j :: i < j < |keys| ==> keys[j] != key
  {
    if keys == [] then -1
    else if keys[|keys| - 1] == key then |keys| - 1
    else FindLast(keys[..|keys| - 1], key)
  }

  /** The key a canonical block would have in a derived text. */
  function TokKey(key: string, subs: seq<Sub>): string {
    if key == PREAMBLE then key else ApplyTokens(key, subs)
  }

  function TokKeys(bs: seq<Block>, subs: seq<Sub>): seq<string> {
    seq(|bs|, i requires 0 <= i < |bs| => TokKey(bs[i].key, subs))
  }

  /** How extraction stores one derived block. */
  function DirectiveFor(canon: seq<Block>, subs: seq<Sub>, b: Block): Directive {
    var i := FindLast(TokKeys(canon, subs), b.key);
    if i >= 0 && ApplyTokens(canon[i].text, subs) == b.text
    then Canonical(Some(canon[i].key))
    else Verbatim(b.key, Lines(SplitLines(b.text)))
  }

  function Extracted(canon: seq<Block>, subs: seq<Sub>, derived: seq<Block>): seq<Directive> {
    seq(|derived|, i requires 0 <= i < |derived| => DirectiveFor(canon, subs, derived[i]))
  }

  datatype GenError = StaleHeading | BadDirective | TypeError

  /** What one directive renders to. */
  function Piece(canon: seq<Block>, subs: seq<Sub>, d: Directive): Result<string, GenError> {
    match d
    case Canonical(None) => Err(StaleHeading)
    case Canonical(Some(heading)) =>
      var i := FindLast(Keys(canon), heading);
      if i < 0 then Err(StaleHeading) else Ok(ApplyTokens(canon[i].text, subs))
    case Verbatim(_, Missing) => Ok("")
    case Verbatim(_, Lines(items)) => Ok(JoinLines(items))
    case Verbatim(_, Iterable(items)) => Ok(JoinLines(items))
    case Verbatim(_, _) => Err(TypeError)
    case UnknownOp(_) => Err(BadDirective)
    case NotAnObject => Err(TypeError)
  }

  /** The pieces in order, or the first error. */
  function Pieces(canon: seq<Block>, subs: seq<Sub>, ds: seq<Directive>): Result<seq<string>, GenError> {
    if ds == [] then Ok([])
    else match Piece(canon, subs, ds[0])
         case Err(e) => Err(e)
         case Ok(p) => match Pieces(canon, subs, ds[1..])
                       case Err(e) => Err(e)
                       case Ok(ps) => Ok([p] + ps)
  }

  function DirectivesOf(o: Overlay): seq<Directive> {
    if o.directives.List? then o.directives.items else []
  }

  function Generated(canonical: string, subs: seq<Sub>, o: Overlay): Result<string, GenError> {
    match Pieces(Blocks(canonical), subs, DirectivesOf(o))
    case Err(e) => Err(e)
    case Ok(ps) => Ok(Concat(ps))
  }

  // ---- the round trip ----

  /** The extractor indexes canonical blocks by substituted key, the generator by the key itself.
      Both remember the last writer, and they agree on which block that is. */
  lemma LastWritersAgree(canon: seq<Block>, subs: seq<Sub>, key: string)
    requires FindLast(TokKeys(canon, subs), key) >= 0
    ensures var i := FindLast(TokKeys(canon, subs), key);
            FindLast(Keys(canon), canon[i].key) == i
  {
    var i := FindLast(TokKeys(canon, subs), key);
    var j := FindLast(Keys(canon), canon[i].key);
    assert Keys(canon)[i] == canon[i].key;
    assert j >= i;
    assert canon[j].key == canon[i].key && TokKeys(canon, subs)[j] == key;
  }

  /** A derived block is stored as a reference exactly when the last canonical block with its
      (substituted) key becomes it; an earlier block of that key does not count, even if it matches. */
  lemma ReferenceIffLastMatches(canon: seq<Block>, subs: seq<Sub>, b: Block)
    ensures DirectiveFor(canon, subs, b).Canonical? <==>
            exists j :: 0 <= j < |canon| && TokKeys(canon, subs)[j] == b.key
                        && ApplyTokens(canon[j].text, subs) == b.text
                        && forall k :: j < k < |canon| ==> TokKeys(canon, subs)[k] != b.key
  {
    var keys := TokKeys(canon, subs);
    var i := FindLast(keys, b.key);
    assert i >= 0 ==> keys[i] == b.key;
    forall j | 0 <= j < |canon| && keys[j] == b.key && forall k :: j < k < |canon| ==> keys[k] != b.key
      ensures j == i
    {
      assert j <= i;
      assert j >= i;
    }
  }

  lemma DirectiveRestoresBlock(canon: seq<Block>, subs: seq<Sub>, b: Block)
    ensures Piece(canon, subs, DirectiveFor(canon, subs, b)) == Ok(b.text)
  {
    if FindLast(TokKeys(canon, subs), b.key) >= 0 {
      LastWritersAgree(canon, subs, b.key);
    }
    JoinOfSplit(b.text);
  }

  lemma ExtractedFirst(canon: seq<Block>, subs: seq<Sub>, derived: seq<Block>)
    requires derived != []
    ensures Extracted(canon, subs, derived) == [DirectiveFor(canon, subs, derived[0])] + Extracted(canon, subs, derived[1..])
    ensures Texts(derived) == [derived[0].text] + Texts(derived[1..])
  {
  }

  lemma {:induction false} ExtractedPieces(canon: seq<Block>, subs: seq<Sub>, derived: seq<Block>)
    ensures Pieces(canon, subs, Extracted(canon, subs, derived)) == Ok(Texts(derived))
  {
    hide DirectiveFor, Piece;
    if derived == [] {
      assert Extracted(canon, subs, derived) == [] && Texts(derived) == [];
    } else {
      ExtractedPieces(canon, subs, derived[1..]);
      DirectiveRestoresBlock(canon, subs, derived[0]);
      ExtractedFirst(canon, subs, derived);
    }
  }

  function OverlayOf(canonical: string, derived: string, subs: seq<Sub>): Overlay {
    Overlay(true, true, List(Extracted(Blocks(canonical), subs, Blocks(derived))))
  }

  /** Generating from the extracted overlay gives the derived text back exactly - for every two
      texts, repeated headings and colliding substitutions included. */
  lemma ExtractThenGenerate(canonical: string, derived: string, subs: seq<Sub>)
    ensures Generated(canonical, subs, OverlayOf(canonical, derived, subs)) == Ok(derived)
  {
    ExtractedPieces(Blocks(canonical), subs, Blocks(derived));
    BlocksConcat(derived);
  }

  // ---- validation ----

  datatype Problem =
    | MissingKey(key: string)
    | DirectivesNotAList
    | DirectiveNotAnObject(i: nat)
    | MissingHeading(i: nat)
    | HeadingNotInCanonical(i: nat)
    | LinesNotAList(i: nat)
    | LinesNotStrings(i: nat)
    | OpUnknown(i: nat)

  /** The problems of one directive; None when looking at it raises.  Without a canonical text
      `keys` is None. */
  function ProblemsOf(i: nat, d: Directive, keys: Option<seq<string>>): Option<seq<Problem>> {
    match d
    case NotAnObject => Some([DirectiveNotAnObject(i)])
    case UnknownOp(_) => Some([OpUnknown(i)])
    case Canonical(heading) =>
      if heading.None? || heading.value == "" then Some([MissingHeading(i)])
      else if keys.Some? && heading.value !in keys.value then Some([HeadingNotInCanonical(i)])
      else Some([])
    case Verbatim(_, lines) =>
      match lines
      case Missing => Some([LinesNotAList(i)])
      case Lines(_) => Some([])
      case BadItems => Some([LinesNotStrings(i)])
      case Iterable(_) => Some([LinesNotAList(i)])
      case NotIterable => None
  }

  /** A directive the validator has nothing against. */
  predicate Valid(d: Directive, keys: Option<seq<string>>) {
    match d
    case Canonical(heading) => heading.Some? && heading.value != "" && (keys.Some? ==> heading.value in keys.value)
    case Verbatim(_, lines) => lines.Lines?
    case _ => false
  }

  ghost predicate AllValid(ds: seq<Directive>, keys: Option<seq<string>>) {
    forall i :: 0 <= i < |ds| ==> Valid(ds[i], keys)
  }

  function CanonicalKeys(canonical: Option<string>): Option<seq<string>> {
    if canonical.Some? then Some(Keys(Blocks(canonical.value))) else None
  }

  /** The problems of the first `n` directives, in order; None when one of them raises. */
  function DirectiveProblems(ds: seq<Directive>, keys: Option<seq<string>>, n: nat): Option<seq<Problem>>
    requires n <= |ds|
  {
    if n == 0 then Some([])
    else
      match DirectiveProblems(ds, keys, n - 1)
      case None => None
      case Some(before) =>
        match ProblemsOf(n - 1, ds[n - 1], keys)
        case None => None
        case Some(more) => Some(before + more)
  }

  function MissingKeys(o: Overlay): seq<Problem> {
    (if o.hasCanonical then [] else [MissingKey("canonical")])
    + (if o.hasDerived then [] else [MissingKey("derived")])
    + if o.directives.NoKey? then [MissingKey("directives")] else []
  }

  function OverlayProblems(o: Overlay, keys: Option<seq<string>>): Option<seq<Problem>> {
    match o.directives
    case NoKey | NoList => Some(MissingKeys(o) + [DirectivesNotAList])
    case List(ds) =>
      match DirectiveProblems(ds, keys, |ds|)
      case None => None
      case Some(more) => Some(MissingKeys(o) + more)
  }

  lemma {:induction false} NoneStays(ds: seq<Directive>, keys: Option<seq<string>>, n: nat, m: nat)
    requires n <= m <= |ds| && DirectiveProblems(ds, keys, n).None?
    ensures DirectiveProblems(ds, keys, m).None?
  {
    if n < m {
      NoneStays(ds, keys, n, m - 1);
    }
  }

  lemma NoProblemIffValid(i: nat, d: Directive, keys: Option<seq<string>>)
    ensures ProblemsOf(i, d, keys) == Some([]) <==> Valid(d, keys)
  {
  }

  lemma {:induction false} NoProblemIffAllValid(ds: seq<Directive>, keys: Option<seq<string>>, n: nat)
    requires n <= |ds|
    ensures DirectiveProblems(ds, keys, n) == Some([]) <==> AllValid(ds[..n], keys)
  {
    hide ProblemsOf, Valid;
    if n > 0 {
      NoProblemIffAllValid(ds, keys, n - 1);
      assert ds[..n] == ds[..n - 1] + [ds[n - 1]];
      assert AllValid(ds[..n], keys) <==> AllValid(ds[..n - 1], keys) && Valid(ds[n - 1], keys);
      var before, more := DirectiveProblems(ds, keys, n - 1), ProblemsOf(n - 1, ds[n - 1], keys);
      NoProblemIffValid(n - 1, ds[n - 1], keys);
      if before.Some? && more.Some? {
        assert |before.value + more.value| == |before.value| + |more.value|;
      }
    }
  }

  lemma ProblemsStep(head: seq<Problem>, ds: seq<Directive>, keys: Option<seq<string>>, i: nat)
    requires i < |ds| && DirectiveProblems(ds, keys, i).Some? && ProblemsOf(i, ds[i], keys).Some?
    ensures DirectiveProblems(ds, keys, i + 1).Some?
    ensures head + DirectiveProblems(ds, keys, i + 1).value
            == (head + DirectiveProblems(ds, keys, i).value) + ProblemsOf(i, ds[i], keys).value
  {
  }

  /** The validator is silent exactly on the overlays whose keys are there and whose directives are
      all valid. */
  lemma SilentIffValid(o: Overlay, keys: Option<seq<string>>)
    ensures OverlayProblems(o, keys) == Some([]) <==>
            o.hasCanonical && o.hasDerived && o.directives.List? && AllValid(o.directives.items, keys)
  {
    assert MissingKeys(o) == [] <==> o.hasCanonical && o.hasDerived && !o.directives.NoKey?;
    if o.directives.List? {
      var ds := o.directives.items;
      NoProblemIffAllValid(ds, keys, |ds|);
      assert ds[..|ds|] == ds;
      var more := DirectiveProblems(ds, keys, |ds|);
      if more.Some? {
        assert |MissingKeys(o) + more.value| == |MissingKeys(o)| + |more.value|;
      }
    } else {
      assert |MissingKeys(o) + [DirectivesNotAList]| > 0;
    }
  }

  /** The fault of one directive that a problem names. */
  predicate FaultyAt(d: Directive, keys: Option<seq<string>>, p: Problem) {
    match p
    case DirectiveNotAnObject(_) => d.NotAnObject?
    case OpUnknown(_) => d.UnknownOp?
    case MissingHeading(_) => d.Canonical? && (d.heading.None? || d.heading.value == "")
    case HeadingNotInCanonical(_) =>
      d.Canonical? && d.heading.Some? && d.heading.value != "" && keys.Some? && d.heading.value !in keys.value
    case LinesNotAList(_) => d.Verbatim? && (d.lines.Missing? || d.lines.Iterable?)
    case LinesNotStrings(_) => d.Verbatim? && d.lines.BadItems?
    case _ => false
  }

  /** What a problem says of an overlay: a key is missing, the directives are no list, or the one it counts
      to has a fault. */
  predicate Faulty(o: Overlay, keys: Option<seq<string>>, p: Problem) {
    match p
    case MissingKey(key) =>
      || (key == "canonical" && !o.hasCanonical) || (key == "derived" && !o.hasDerived)
      || (key == "directives" && o.directives.NoKey?)
    case DirectivesNotAList => !o.directives.List?
    case _ => o.directives.List? && p.i < |o.directives.items| && FaultyAt(o.directives.items[p.i], keys, p)
  }

  lemma OneDirective(i: nat, d: Directive, keys: Option<seq<string>>, p: Problem)
    ensures ProblemsOf(i, d, keys).None? <==> d.Verbatim? && d.lines.NotIterable?
    ensures ProblemsOf(i, d, keys).Some? ==>
              (p in ProblemsOf(i, d, keys).value <==>
                 !p.MissingKey? && !p.DirectivesNotAList? && p.i == i && FaultyAt(d, keys, p))
  {
    hide ProblemsOf;
    if d.Verbatim? && d.lines.NotIterable? {
      NoProblemOfRaising(i, d, keys);
    } else if q: Problem :| !q.MissingKey? && !q.DirectivesNotAList? && q.i == i && FaultyAt(d, keys, q) {
      FaultIsReported(i, d, keys, q);
      OneFault(d, keys, p, q);
    } else {
      NoFaultReported(i, d, keys);
    }
  }

  lemma NoProblemOfRaising(i: nat, d: Directive, keys: Option<seq<string>>)
    requires d.Verbatim? && d.lines.NotIterable?
    ensures ProblemsOf(i, d, keys).None?
  {
  }

  lemma FaultIsReported(i: nat, d: Directive, keys: Option<seq<string>>, q: Problem)
    requires !q.MissingKey? && !q.DirectivesNotAList? && q.i == i && FaultyAt(d, keys, q)
    ensures ProblemsOf(i, d, keys) == Some([q])
  {
  }

  lemma OneFault(d: Directive, keys: Option<seq<string>>, p: Problem, q: Problem)
    requires !q.MissingKey? && !q.DirectivesNotAList? && FaultyAt(d, keys, q)
    ensures !p.MissingKey? && !p.DirectivesNotAList? && p.i == q.i && FaultyAt(d, keys, p) <==> p == q
  {
  }

  lemma NoFaultReported(i: nat, d: Directive, keys: Option<seq<string>>)
    requires !(d.Verbatim? && d.lines.NotIterable?)
    requires forall q: Problem :: !q.MissingKey? && !q.DirectivesNotAList? && q.i == i ==> !FaultyAt(d, keys, q)
    ensures ProblemsOf(i, d, keys) == Some([])
  {
    assert !FaultyAt(d, keys, DirectiveNotAnObject(i)) && !FaultyAt(d, keys, OpUnknown(i));
    assert !FaultyAt(d, keys, MissingHeading(i)) && !FaultyAt(d, keys, HeadingNotInCanonical(i));
    assert !FaultyAt(d, keys, LinesNotAList(i)) && !FaultyAt(d, keys, LinesNotStrings(i));
  }

  lemma {:induction false} DirectiveFaults(ds: seq<Directive>, keys: Option<seq<string>>, n: nat, p: Problem)
    requires n <= |ds|
    ensures DirectiveProblems(ds, keys, n).None? <==>
            exists i :: 0 <= i < n && ds[i].Verbatim? && ds[i].lines.NotIterable?
    ensures DirectiveProblems(ds, keys, n).Some? ==>
              (p in DirectiveProblems(ds, keys, n).value <==>
                 !p.MissingKey? && !p.DirectivesNotAList? && p.i < n && FaultyAt(ds[p.i], keys, p))
  {
    hide ProblemsOf, FaultyAt;
    if n > 0 {
      DirectiveFaults(ds, keys, n - 1, p);
      OneDirective(n - 1, ds[n - 1], keys, p);
      var before, more := DirectiveProblems(ds, keys, n - 1), ProblemsOf(n - 1, ds[n - 1], keys);
      if before.Some? && more.Some? {
        assert DirectiveProblems(ds, keys, n) == Some(before.value + more.value);
        assert p in before.value + more.value <==> p in before.value || p in more.value;
      }
    }
  }

  /** The validator reports exactly the faults there are, and raises exactly on a verbatim directive whose
      lines cannot be iterated. */
  lemma ProblemIff(o: Overlay, keys: Option<seq<string>>, p: Problem)
    ensures OverlayProblems(o, keys).None? <==>
            o.directives.List? && exists d :: d in o.directives.items && d.Verbatim? && d.lines.NotIterable?
    ensures OverlayProblems(o, keys).Some? ==> (p in OverlayProblems(o, keys).value <==> Faulty(o, keys, p))
  {
    assert p in MissingKeys(o) <==> p.MissingKey? && Faulty(o, keys, p);
    if o.directives.List? {
      DirectiveFaults(o.directives.items, keys, |o.directives.items|, p);
    }
  }

  /** `validate_overlay` */
  method ValidateOverlay(o: Overlay, canonical: Option<string>) returns (problems: Option<seq<Problem>>)
    ensures problems == OverlayProblems(o, CanonicalKeys(canonical))
  {
    var found: seq<Problem> := [];
    if !o.hasCanonical { found := found + [MissingKey("canonical")]; }
    if !o.hasDerived { found := found + [MissingKey("derived")]; }
    if o.directives.NoKey? { found := found + [MissingKey("directives")]; }
    ghost var head := found;
    assert head == MissingKeys(o);
    if !o.directives.List? {
      return Some(found + [DirectivesNotAList]);
    }
    var keys: Option<seq<string>> := None;
    if canonical.Some? {
      var blocks := SplitBlocks(canonical.value);
      keys := Some(Keys(blocks));
    }
    var ds := o.directives.items;
    for i := 0 to |ds|
      invariant DirectiveProblems(ds, keys, i).Some?
      invariant found == head + DirectiveProblems(ds, keys, i).value
    {
      var more := ProblemsOf(i, ds[i], keys);
      if more.None? {
        NoneStays(ds, keys, i + 1, |ds|);
        return None;
      }
      ProblemsStep(head, ds, keys, i);
      found := found + more.value;
    }
    problems := Some(found);
  }

  /** Generation succeeds exactly on these directives. */
  predicate Renderable(d: Directive, keys: seq<string>) {
    match d
    case Canonical(heading) => heading.Some? && heading.value in keys
    case Verbatim(_, lines) => lines.Missing? || lines.Lines? || lines.Iterable?
    case _ => false
  }

  lemma {:induction false} GeneratesIffRenderable(canon: seq<Block>, subs: seq<Sub>, ds: seq<Directive>)
    ensures Pieces(canon, subs, ds).Ok? <==> forall d :: d in ds ==> Renderable(d, Keys(canon))
  {
    if ds != [] {
      GeneratesIffRenderable(canon, subs, ds[1..]);
      assert Piece(canon, subs, ds[0]).Ok? <==> Renderable(ds[0], Keys(canon));
      assert forall d :: d in ds <==> d == ds[0] || d in ds[1..];
    }
  }

  /** Generation stops at the first directive that cannot be rendered, with its error: a heading that is not
      there, an unknown operation, or a value of the wrong type. */
  lemma {:induction false} GenerationStopsAt(canon: seq<Block>, subs: seq<Sub>, ds: seq<Directive>, i: nat)
    requires i < |ds| && !Renderable(ds[i], Keys(canon)) && forall j :: 0 <= j < i ==> Renderable(ds[j], Keys(canon))
    ensures Pieces(canon, subs, ds) == Err(if ds[i].Canonical? then StaleHeading
                                           else if ds[i].UnknownOp? then BadDirective else TypeError)
    decreases |ds|
  {
    if i > 0 {
      assert Renderable(ds[0], Keys(canon));
      GenerationStopsAt(canon, subs, ds[1..], i - 1);
    }
  }

  /** An overlay the validator has nothing against for a canonical text generates without error. */
  lemma ValidatedOverlayGenerates(canonical: string, subs: seq<Sub>, o: Overlay)
    requires OverlayProblems(o, CanonicalKeys(Some(canonical))) == Some([])
    ensures Generated(canonical, subs, o).Ok?
  {
    SilentIffValid(o, CanonicalKeys(Some(canonical)));
    GeneratesIffRenderable(Blocks(canonical), subs, DirectivesOf(o));
  }

  lemma {:induction false} StripKeepsInk(s: string)
    requires s != "" && !IsSpace(s[0])
    ensures StripRight(s) != ""
  {
    if IsSpace(s[|s| - 1]) {
      StripKeepsInk(s[..|s| - 1]);
    }
  }

  lemma {:induction false} BlockKeysNotEmpty(t: string, i: nat)
    requires i < |t| && HeadingAt(t, i)
    ensures forall b :: b in BlocksFrom(t, i) ==> b.key != ""
    decreases |t| - i
  {
    assert t[i] == '#' && LineEnd(t, i) > i;
    assert t[i..LineEnd(t, i)] != "";
    StripKeepsInk(t[i..LineEnd(t, i)]);
    var end := NextHeading(t, i + 1);
    if end < |t| {
      BlockKeysNotEmpty(t, end);
    }
  }

  /** What extraction writes always validates. */
  lemma ExtractedOverlayValidates(canonical: string, derived: string, subs: seq<Sub>)
    ensures OverlayProblems(OverlayOf(canonical, derived, subs), CanonicalKeys(Some(canonical))) == Some([])
  {
    SilentIffValid(OverlayOf(canonical, derived, subs), CanonicalKeys(Some(canonical)));
    var canon := Blocks(canonical);
    var first := NextHeading(canonical, 0);
    if first < |canonical| {
      BlockKeysNotEmpty(canonical, first);
    }
    assert forall b :: b in canon ==> b.key != "";
    forall b: Block ensures Valid(DirectiveFor(canon, subs, b), Some(Keys(canon))) {
      var i := FindLast(TokKeys(canon, subs), b.key);
      if i >= 0 {
        assert canon[i] in canon && Keys(canon)[i] == canon[i].key;
      }
    }
  }

  // ---- editing the canonical text ----

  lemma {:induction false} PiecesAt(canon: seq<Block>, subs: seq<Sub>, ds: seq<Directive>, i: nat)
    requires i < |ds| && Pieces(canon, subs, ds).Ok?
    ensures |Pieces(canon, subs, ds).value| == |ds|
    ensures Piece(canon, subs, ds[i]) == Ok(Pieces(canon, subs, ds).value[i])
    decreases |ds|
  {
    if i > 0 {
      PiecesAt(canon, subs, ds[1..], i - 1);
    } else if |ds| > 1 {
      PiecesAt(canon, subs, ds[1..], 0);
    }
  }

  /** When the canonical text is edited with its headings kept, the regenerated text changes only in
      the blocks of canonical directives, each becoming the substituted new block. */
  lemma EditPropagates(before: string, after: string, subs: seq<Sub>, o: Overlay, i: nat)
    requires Keys(Blocks(before)) == Keys(Blocks(after))
    requires Generated(before, subs, o).Ok? && i < |DirectivesOf(o)|
    ensures Generated(after, subs, o).Ok?
    ensures var d := DirectivesOf(o)[i];
            var old_ := Pieces(Blocks(before), subs, DirectivesOf(o)).value;
            var new_ := Pieces(Blocks(after), subs, DirectivesOf(o)).value;
            && |old_| == |new_| == |DirectivesOf(o)|
            && Generated(before, subs, o) == Ok(Concat(old_)) && Generated(after, subs, o) == Ok(Concat(new_))
            && (d.Verbatim? ==> new_[i] == old_[i])
            && (d.Canonical? ==>
                  && d.heading.Some?
                  && var k := FindLast(Keys(Blocks(before)), d.heading.value);
                  && k >= 0
                  && old_[i] == ApplyTokens(Blocks(before)[k].text, subs)
                  && new_[i] == ApplyTokens(Blocks(after)[k].text, subs))
  {
    var ds := DirectivesOf(o);
    GeneratesIffRenderable(Blocks(before), subs, ds);
    GeneratesIffRenderable(Blocks(after), subs, ds);
    PiecesAt(Blocks(before), subs, ds, i);
    PiecesAt(Blocks(after), subs, ds, i);
    assert ds[i] in ds;
  }

  // ---- the code ----

  /** The positions of all headings from `from` on. */
  function Headings(t: string, from: nat): seq<nat>
    requires from <= |t|
    decreases |t| - from
  {
    var k := NextHeading(t, from);
    if k == |t| then [] else [k] + Headings(t, k + 1)
  }

  /** `starts` are the headings before `i`. */
  ghost predicate FoundBefore(t: string, starts: seq<nat>, i: nat)
    requires i <= |t|
  {
    starts + Headings(t, i) == Headings(t, 0)
  }

  lemma FoundNext(t: string, starts: seq<nat>, i: nat)
    requires i < |t| && FoundBefore(t, starts, i)
    ensures FoundBefore(t, if HeadingAt(t, i) then starts + [i] else starts, i + 1)
  {
    if HeadingAt(t, i) {
      var rest := Headings(t, i + 1);
      assert Headings(t, i) == [i] + rest;
      assert starts + ([i] + rest) == (starts + [i]) + rest;
    }
  }

  lemma FoundNone(t: string)
    ensures FoundBefore(t, [], 0)
  {
  }

  lemma FoundAll(t: string, starts: seq<nat>)
    requires FoundBefore(t, starts, |t|)
    ensures starts == Headings(t, 0)
  {
  }

  /** The matches of the heading pattern. */
  method FindHeadings(t: string) returns (starts: seq<nat>)
    ensures starts == Headings(t, 0)
  {
    hide HeadingAt, FoundBefore;
    FoundNone(t);
    starts := [];
    for i := 0 to |t|
      invariant FoundBefore(t, starts, i)
    {
      FoundNext(t, starts, i);
      if HeadingAt(t, i) {
        starts := starts + [i];
      }
    }
    FoundAll(t, starts);
  }

  /** Where match `k` stops governing: at the next match, or at the end. */
  function EndOf(t: string, starts: seq<nat>, k: nat): nat {
    if k + 1 < |starts| then starts[k + 1] else |t|
  }

  ghost predicate Ascending(t: string, starts: seq<nat>) {
    forall k :: 0 <= k < |starts| ==> starts[k] < EndOf(t, starts, k) <= |t|
  }

  ghost predicate CutByMatch(t: string, starts: seq<nat>, bs: seq<Block>)
    requires Ascending(t, starts)
  {
    |bs| == |starts| && forall k :: 0 <= k < |bs| ==>
      bs[k] == Block(HeadingKey(t, starts[k]), t[starts[k]..EndOf(t, starts, k)])
  }

  lemma CutCons(t: string, at: nat, rest: seq<nat>, bs: seq<Block>)
    requires Ascending(t, rest) && CutByMatch(t, rest, bs)
    requires at < EndOf(t, [at] + rest, 0) <= |t|
    ensures Ascending(t, [at] + rest)
    ensures CutByMatch(t, [at] + rest, [Block(HeadingKey(t, at), t[at..EndOf(t, [at] + rest, 0)])] + bs)
  {
    hide HeadingKey;
    assert forall k :: 0 < k < |rest| + 1 ==> EndOf(t, [at] + rest, k) == EndOf(t, rest, k - 1);
  }

  /** The blocks from the first heading on, match by match. */
  lemma {:induction false} BlocksByMatch(t: string, from: nat, starts: seq<nat>)
    requires from <= |t| && starts == Headings(t, from)
    ensures Ascending(t, starts)
    ensures NextHeading(t, from) == if starts == [] then |t| else starts[0]
    ensures CutByMatch(t, starts, BlocksFrom(t, NextHeading(t, from)))
    decreases |t| - from
  {
    if starts != [] {
      var at, rest := starts[0], starts[1..];
      assert at == NextHeading(t, from) < |t| && rest == Headings(t, at + 1);
      BlocksByMatch(t, at + 1, rest);
      assert starts == [at] + rest && EndOf(t, starts, 0) == NextHeading(t, at + 1);
      CutCons(t, at, rest, BlocksFrom(t, NextHeading(t, at + 1)));
    }
  }

  /** The loop over the matches. */
  method CutAt(t: string, starts: seq<nat>) returns (bs: seq<Block>)
    requires Ascending(t, starts)
    ensures CutByMatch(t, starts, bs)
  {
    hide HeadingKey, HeadingAt, EndOf;
    bs := [];
    for i := 0 to |starts|
      invariant |bs| == i
      invariant forall k :: 0 <= k < i ==>
                  bs[k] == Block(HeadingKey(t, starts[k]), t[starts[k]..EndOf(t, starts, k)])
    {
      bs := bs + [Block(HeadingKey(t, starts[i]), t[starts[i]..EndOf(t, starts, i)])];
    }
  }

  /** `split_blocks` */
  method SplitBlocks(t: string) returns (blocks: seq<Block>)
    ensures blocks == Blocks(t)
  {
    var starts := FindHeadings(t);
    if starts == [] {
      return [Block(PREAMBLE, t)];
    }
    BlocksByMatch(t, 0, starts);
    blocks := CutAt(t, starts);
    assert blocks == BlocksFrom(t, NextHeading(t, 0));
    if starts[0] > 0 {
      blocks := [Block(PREAMBLE, t[..starts[0]])] + blocks;
    }
  }

  /** `_canonical_block_map`: a later block overwrites an earlier one with the same key. */
  method CanonicalBlockMap(canonical: string) returns (m: map<string, string>)
    ensures var canon := Blocks(canonical);
            forall key :: var i := FindLast(Keys(canon), key);
              (key in m <==> i >= 0) && (i >= 0 ==> m[key] == canon[i].text)
  {
    var canon := SplitBlocks(canonical);
    m := map[];
    ghost var keys := Keys(canon);
    for n := 0 to |canon|
      invariant forall key :: var i := FindLast(keys[..n], key);
                  (key in m <==> i >= 0) && (i >= 0 ==> m[key] == canon[i].text)
    {
      m := m[canon[n].key := canon[n].text];
      assert keys[..n + 1][..n] == keys[..n];
    }
    assert keys[..|canon|] == keys;
  }

  /** The extractor's index: substituted key to heading and substituted block, last writer wins. */
  method TokenIndex(canon: seq<Block>, subs: seq<Sub>) returns (index: map<string, (string, string)>)
    ensures forall key :: var i := FindLast(TokKeys(canon, subs), key);
              (key in index <==> i >= 0)
              && (i >= 0 ==> index[key] == (canon[i].key, ApplyTokens(canon[i].text, subs)))
  {
    index := map[];
    ghost var keys := TokKeys(canon, subs);
    for n := 0 to |canon|
      invariant forall key :: var i := FindLast(keys[..n], key);
                  (key in index <==> i >= 0)
                  && (i >= 0 ==> index[key] == (canon[i].key, ApplyTokens(canon[i].text, subs)))
    {
      var text := Apply(canon[n].text, subs);
      var key := canon[n].key;
      if key != PREAMBLE {
        key := Apply(canon[n].key, subs);
      }
      index := index[key := (canon[n].key, text)];
      assert keys[..n + 1][..n] == keys[..n] && keys[n] == key;
    }
    assert keys[..|canon|] == keys;
  }

  /** `build_directives` */
  method BuildDirectives(canonical: string, derived: string, subs: seq<Sub>) returns (ds: seq<Directive>)
    ensures ds == Extracted(Blocks(canonical), subs, Blocks(derived))
  {
    hide ApplyTokens, FindLast, TokKeys, SplitLines;
    var canon := SplitBlocks(canonical);
    var index := TokenIndex(canon, subs);
    var blocks := SplitBlocks(derived);
    ghost var expected := Extracted(canon, subs, blocks);
    ds := [];
    for n := 0 to |blocks|
      invariant ds == expected[..n]
    {
      var b := blocks[n];
      assert expected[..n + 1] == expected[..n] + [DirectiveFor(canon, subs, b)];
      if b.key in index && index[b.key].1 == b.text {
        ds := ds + [Canonical(Some(index[b.key].0))];
      } else {
        ds := ds + [Verbatim(b.key, Lines(SplitLines(b.text)))];
      }
    }
  }

  function Rendered(canon: seq<Block>, subs: seq<Sub>, ds: seq<Directive>, out: string): Result<string, GenError> {
    match Pieces(canon, subs, ds)
    case Err(e) => Err(e)
    case Ok(ps) => Ok(out + Concat(ps))
  }

  lemma RenderedStep(canon: seq<Block>, subs: seq<Sub>, ds: seq<Directive>, out: string)
    requires ds != []
    ensures Rendered(canon, subs, ds, out)
            == match Piece(canon, subs, ds[0])
               case Err(e) => Err(e)
               case Ok(p) => Rendered(canon, subs, ds[1..], out + p)
  {
    if Pieces(canon, subs, ds).Ok? {
      var p, ps := Piece(canon, subs, ds[0]).value, Pieces(canon, subs, ds[1..]).value;
      assert Concat([p] + ps) == p + Concat(ps);
      assert out + (p + Concat(ps)) == (out + p) + Concat(ps);
    }
  }

  /** `generate` */
  method Generate(canonical: string, subs: seq<Sub>, o: Overlay) returns (r: Result<string, GenError>)
    ensures r == Generated(canonical, subs, o)
  {
    var m := CanonicalBlockMap(canonical);
    ghost var canon := Blocks(canonical);
    var ds := DirectivesOf(o);
    var out := "";
    if Pieces(canon, subs, ds).Ok? {
      assert out + Concat(Pieces(canon, subs, ds).value) == Concat(Pieces(canon, subs, ds).value);
    }
    for i := 0 to |ds|
      invariant Rendered(canon, subs, ds[i..], out) == Generated(canonical, subs, o)
    {
      RenderedStep(canon, subs, ds[i..], out);
      assert ds[i..][0] == ds[i] && ds[i..][1..] == ds[i + 1..];
      match ds[i] {
        case Canonical(heading) =>
          if heading.None? || heading.value !in m {
            return Err(StaleHeading);
          }
          var piece := Apply(m[heading.value], subs);
          out := out + piece;
        case Verbatim(_, lines) =>
          if lines.BadItems? || lines.NotIterable? {
            return Err(TypeError);
          }
          out := out + if lines.Missing? then "" else JoinLines(lines.items);
        case UnknownOp(_) => return Err(BadDirective);
        case NotAnObject => return Err(TypeError);
      }
    }
    assert ds[|ds|..] == [] && out + "" == out;
    r := Ok(out);
  }
}
