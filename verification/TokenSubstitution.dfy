/** `apply_tokens` of `lazy_parity_audit.py`: ordered literal substitutions over a text. */
module TokenSubstitution {
  import opened Strings

  datatype Sub = Sub(canonical: string, derived: string)

  /** `text.replace(old, new)`: left to right, without overlaps. */
  function Replace(text: string, old_: string, new_: string): string {
    if old_ == "" then new_ + Spread(text, new_)
    else if old_ <= text then new_ + Replace(text[|old_|..], old_, new_)
    else if text == "" then ""
    else [text[0]] + Replace(text[1..], old_, new_)
  }

  /** Replacing the empty string puts the replacement after every character. */
  function Spread(text: string, new_: string): string {
    if text == "" then "" else [text[0]] + new_ + Spread(text[1..], new_)
  }

  /** The characters `re.escape` puts a backslash before. */
  predicate NeedsEscape(c: char) {
    c in "()[]{}?*+-|^$\\.&~# \t\n\r" || c as int == 0x0b || c as int == 0x0c
  }

  function Escape(s: string): string {
    if s == "" then ""
    else (if NeedsEscape(s[0]) then ['\\', s[0]] else [s[0]]) + Escape(s[1..])
  }

  function ApplyOne(text: string, s: Sub): string {
    var plain := Replace(text, s.canonical, s.derived);
    if Escape(s.canonical) != s.canonical
    then Replace(plain, Escape(s.canonical), Escape(s.derived)) else plain
  }

  function ApplyTokens(text: string, subs: seq<Sub>): string
    decreases |subs|
  {
    if subs == [] then text else ApplyTokens(ApplyOne(text, subs[0]), subs[1..])
  }

  // ---- what a replacement is ----

  predicate OccursAt(sub: string, text: string, i: nat) {
    i <= |text| && sub <= text[i..]
  }

  /** `sub` occurs somewhere in `text`. */
  ghost predicate Occurs(sub: string, text: string) {
    exists i: nat :: OccursAt(sub, text, i)
  }

  /** `separator.join(pieces)` */
  function Join(pieces: seq<string>, separator: string): string {
    if pieces == [] then ""
    else if |pieces| == 1 then pieces[0]
    else pieces[0] + separator + Join(pieces[1..], separator)
  }

  /** In `piece` followed by the token, the token occurs at the end and nowhere before. */
  ghost predicate EndsAtFirst(piece: string, token: string) {
    forall i: nat :: i < |piece| ==> !OccursAt(token, piece + token, i)
  }

  /** `text` cut at the leftmost occurrences of a token that do not overlap; an empty token cuts before and
      behind every character. */
  ghost predicate IsCut(text: string, token: string, pieces: seq<string>) {
    && pieces != []
    && text == Join(pieces, token)
    && if token == ""
       then
         && |pieces| == |text| + 2 && pieces[0] == "" && pieces[|text| + 1] == ""
         && forall i :: 0 <= i < |text| ==> pieces[i + 1] == [text[i]]
       else
         && (forall k :: 0 <= k < |pieces| - 1 ==> EndsAtFirst(pieces[k], token))
         && !Occurs(token, pieces[|pieces| - 1])
  }

  lemma OccursLater(token: string, text: string)
    ensures Occurs(token, text) <==> token <= text || (text != "" && Occurs(token, text[1..]))
  {
    if i: nat :| OccursAt(token, text, i) {
      if i > 0 {
        assert text[1..][i - 1..] == text[i..];
        assert OccursAt(token, text[1..], i - 1);
      }
    }
    if token <= text {
      assert text[0..] == text;
      assert OccursAt(token, text, 0);
    }
    if text != "" && Occurs(token, text[1..]) {
      var i: nat :| OccursAt(token, text[1..], i);
      assert text[1..][i..] == text[i + 1..];
      assert OccursAt(token, text, i + 1);
    }
  }

  /** A token that does not occur changes nothing. */
  lemma {:induction false} ReplaceAbsent(text: string, old_: string, new_: string)
    requires !Occurs(old_, text)
    ensures Replace(text, old_, new_) == text
  {
    OccursLater(old_, text);
    if text != "" {
      ReplaceAbsent(text[1..], old_, new_);
    }
  }

  lemma JoinCons(piece: string, pieces: seq<string>, separator: string)
    requires pieces != []
    ensures Join([piece] + pieces, separator) == piece + separator + Join(pieces, separator)
  {
    assert ([piece] + pieces)[1..] == pieces;
  }

  /** A text that begins with the token: the rest is cut on its own. */
  lemma CutAtToken(token: string, pieces: seq<string>)
    requires token != "" && |pieces| > 1 && pieces[0] == "" && IsCut(Join(pieces, token), token, pieces)
    ensures Join(pieces, token) == token + Join(pieces[1..], token)
    ensures IsCut(Join(pieces[1..], token), token, pieces[1..])
  {
    var rest := pieces[1..];
    assert "" + token == token;
    assert forall k :: 0 <= k < |rest| ==> rest[k] == pieces[k + 1];
  }

  lemma StillEndsAtFirst(piece: string, token: string)
    requires piece != "" && EndsAtFirst(piece, token)
    ensures EndsAtFirst(piece[1..], token)
  {
    forall i: nat | i < |piece| - 1 ensures !OccursAt(token, piece[1..] + token, i) {
      assert (piece + token)[i + 1..] == (piece[1..] + token)[i..];
      assert !OccursAt(token, piece + token, i + 1);
    }
  }

  lemma DoesNotBegin(piece: string, token: string, rest: string)
    requires piece != "" && EndsAtFirst(piece, token)
    ensures !(token <= piece + token + rest)
  {
    var text := piece + token + rest;
    assert !OccursAt(token, piece + token, 0);
    assert (piece + token)[0..] == piece + token;
    assert text[..|token|] == (piece + token)[..|token|];
  }

  /** A text that begins with a character of its first piece. */
  lemma CutAtCharacter(token: string, pieces: seq<string>)
    requires token != "" && |pieces| > 1 && pieces[0] != "" && IsCut(Join(pieces, token), token, pieces)
    ensures var (text, shorter) := (Join(pieces, token), [pieces[0][1..]] + pieces[1..]);
            && text != "" && text[0] == pieces[0][0] && !(token <= text)
            && text[1..] == Join(shorter, token) && IsCut(text[1..], token, shorter)
  {
    hide EndsAtFirst, Occurs, OccursAt, Join;
    var text, shorter, first := Join(pieces, token), [pieces[0][1..]] + pieces[1..], pieces[0];
    var rest := Join(pieces[1..], token);
    assert [first] + pieces[1..] == pieces;
    JoinCons(first, pieces[1..], token);
    JoinCons(first[1..], pieces[1..], token);
    assert text[1..] == first[1..] + token + rest;
    assert EndsAtFirst(pieces[0], token);
    StillEndsAtFirst(first, token);
    DoesNotBegin(first, token, rest);
    assert forall k :: 1 <= k < |pieces| ==> shorter[k] == pieces[k];
  }

  lemma OnePiece(text: string, token: string, pieces: seq<string>, new_: string)
    requires token != "" && |pieces| <= 1 && IsCut(text, token, pieces)
    ensures Replace(text, token, new_) == Join(pieces, new_)
  {
    ReplaceAbsent(text, token, new_);
  }

  lemma ReplaceAtToken(token: string, rest: string, new_: string)
    requires token != ""
    ensures Replace(token + rest, token, new_) == new_ + Replace(rest, token, new_)
  {
    assert (token + rest)[|token|..] == rest;
  }

  lemma ReplaceAtCharacter(text: string, token: string, new_: string)
    requires token != "" && text != "" && !(token <= text)
    ensures Replace(text, token, new_) == [text[0]] + Replace(text[1..], token, new_)
  {
  }

  lemma JoinBefore(piece: string, pieces: seq<string>, separator: string)
    requires piece != "" && pieces != []
    ensures Join([piece] + pieces, separator) == [piece[0]] + Join([piece[1..]] + pieces, separator)
  {
    JoinCons(piece, pieces, separator);
    JoinCons(piece[1..], pieces, separator);
  }

  /** Replacing a non-empty token keeps the pieces the text is cut into and puts the new token between
      them. */
  lemma {:induction false} ReplaceRejoins(token: string, pieces: seq<string>, new_: string)
    requires token != "" && IsCut(Join(pieces, token), token, pieces)
    ensures Replace(Join(pieces, token), token, new_) == Join(pieces, new_)
    decreases |Join(pieces, token)|
  {
    hide IsCut, Join, Replace;
    var text := Join(pieces, token);
    if |pieces| <= 1 {
      OnePiece(text, token, pieces, new_);
    } else if pieces[0] == "" {
      CutAtToken(token, pieces);
      ReplaceRejoins(token, pieces[1..], new_);
      ReplaceAtToken(token, Join(pieces[1..], token), new_);
      assert [""] + pieces[1..] == pieces;
      JoinCons("", pieces[1..], new_);
      assert "" + new_ == new_;
    } else {
      CutAtCharacter(token, pieces);
      var shorter := [pieces[0][1..]] + pieces[1..];
      ReplaceRejoins(token, shorter, new_);
      ReplaceAtCharacter(text, token, new_);
      JoinBefore(pieces[0], pieces[1..], new_);
      assert [pieces[0]] + pieces[1..] == pieces;
    }
  }

  /** Put a character before a cut text. */
  lemma CutGrows(c: char, text: string, token: string, pieces: seq<string>)
    requires token != "" && IsCut(text, token, pieces) && !(token <= [c] + text)
    ensures IsCut([c] + text, token, [[c] + pieces[0]] + pieces[1..])
  {
    var longer, first := [[c] + pieces[0]] + pieces[1..], [c] + pieces[0];
    if |pieces| == 1 {
      OccursLater(token, first);
      assert first[1..] == pieces[0];
    } else {
      JoinCons(first, pieces[1..], token);
      assert [c] + text == (first + token) + Join(pieces[1..], token);
      forall i: nat | i < |first| ensures !OccursAt(token, first + token, i) {
        if i > 0 {
          assert EndsAtFirst(pieces[0], token);
          assert !OccursAt(token, pieces[0] + token, i - 1);
          assert (first + token)[i..] == (pieces[0] + token)[i - 1..];
        } else {
          assert (first + token)[0..] == first + token;
          assert !((first + token)[..|token|] == token) by {
            assert ([c] + text)[..|token|] == (first + token)[..|token|];
          }
        }
      }
      assert forall k :: 1 <= k < |pieces| ==> longer[k] == pieces[k];
    }
  }

  lemma {:induction false} CutExists(text: string, token: string)
    requires token != ""
    ensures exists pieces :: IsCut(text, token, pieces)
    decreases |text|
  {
    if token <= text {
      CutExists(text[|token|..], token);
      var rest :| IsCut(text[|token|..], token, rest);
      JoinCons("", rest, token);
      assert text == token + text[|token|..];
      var pieces := [""] + rest;
      assert EndsAtFirst("", token);
      assert forall k :: 0 < k < |pieces| ==> pieces[k] == rest[k - 1];
      assert IsCut(text, token, pieces);
    } else if text == "" {
      assert !Occurs(token, "");
      assert IsCut(text, token, [""]);
    } else {
      CutExists(text[1..], token);
      var pieces :| IsCut(text[1..], token, pieces);
      assert [text[0]] + text[1..] == text;
      CutGrows(text[0], text[1..], token, pieces);
    }
  }

  /** The characters of a text, with an empty piece at either end. */
  function Singles(text: string): seq<string> {
    [""] + SinglesFrom(text)
  }

  function SinglesFrom(text: string): (pieces: seq<string>)
    ensures |pieces| == |text| + 1 && pieces[|text|] == ""
    ensures forall i :: 0 <= i < |text| ==> pieces[i] == [text[i]]
  {
    if text == "" then [""] else [[text[0]]] + SinglesFrom(text[1..])
  }

  lemma {:induction false} SpreadJoins(text: string, new_: string)
    ensures Join(SinglesFrom(text), new_) == Spread(text, new_)
  {
    if text != "" {
      SpreadJoins(text[1..], new_);
      JoinCons([text[0]], SinglesFrom(text[1..]), new_);
    }
  }

  lemma {:induction false} SinglesJoin(text: string)
    ensures Join(SinglesFrom(text), "") == text
  {
    if text != "" {
      SinglesJoin(text[1..]);
      JoinCons([text[0]], SinglesFrom(text[1..]), "");
      assert [text[0]] + "" == [text[0]];
    }
  }

  lemma SinglesAreCut(text: string)
    ensures IsCut(text, "", Singles(text))
  {
    SinglesJoin(text);
    JoinCons("", SinglesFrom(text), "");
  }

  lemma EmptyCut(text: string, pieces: seq<string>)
    ensures IsCut(text, "", pieces) <==> pieces == Singles(text)
  {
    hide Join, SinglesFrom;
    SinglesAreCut(text);
    if IsCut(text, "", pieces) {
      forall i | 0 <= i < |pieces| ensures pieces[i] == Singles(text)[i] {
        assert 0 < i <= |text| ==> pieces[(i - 1) + 1] == [text[i - 1]];
      }
    }
  }

  /** A replacement, without reference to how it is computed: there is a way to cut the text at the
      leftmost occurrences of the old token, and however it is cut so, the result is the same pieces with
      the new token between them. */
  lemma ReplaceIsRejoining(text: string, old_: string, new_: string)
    ensures exists pieces :: IsCut(text, old_, pieces)
    ensures forall pieces :: IsCut(text, old_, pieces) ==> Replace(text, old_, new_) == Join(pieces, new_)
  {
    if old_ == "" {
      EmptyCut(text, Singles(text));
      SpreadJoins(text, new_);
      JoinCons("", SinglesFrom(text), new_);
      forall pieces | IsCut(text, old_, pieces) ensures Replace(text, old_, new_) == Join(pieces, new_) {
        EmptyCut(text, pieces);
      }
    } else {
      CutExists(text, old_);
      forall pieces | IsCut(text, old_, pieces) ensures Replace(text, old_, new_) == Join(pieces, new_) {
        ReplaceRejoins(old_, pieces, new_);
      }
    }
  }

  // ---- what escaping is ----

  /** Read an escaped text back: a backslash stands for the character behind it. */
  function Unescape(s: string): string {
    if s == "" then ""
    else if s[0] == '\\' && |s| > 1 then [s[1]] + Unescape(s[2..])
    else [s[0]] + Unescape(s[1..])
  }

  /** The escaped form of one character. */
  function Escaped(c: char): string {
    if NeedsEscape(c) then ['\\', c] else [c]
  }

  lemma {:induction false} EscapePieces(s: string)
    ensures Escape(s) == Concat(seq(|s|, i requires 0 <= i < |s| => Escaped(s[i])))
  {
    if s != "" {
      hide NeedsEscape;
      var t := s[1..];
      EscapePieces(t);
      var parts := seq(|s|, i requires 0 <= i < |s| => Escaped(s[i]));
      assert parts[1..] == seq(|t|, i requires 0 <= i < |t| => Escaped(t[i]));
    }
  }

  lemma {:induction false} EscapeReadsBack(s: string)
    ensures Unescape(Escape(s)) == s
  {
    if s != "" {
      EscapeReadsBack(s[1..]);
      var rest := Escape(s[1..]);
      if NeedsEscape(s[0]) {
        assert Escape(s)[2..] == rest;
      } else {
        assert Escape(s)[1..] == rest;
      }
      assert [s[0]] + s[1..] == s;
    }
  }

  lemma {:induction false} EscapeLengthens(s: string)
    ensures |Escape(s)| >= |s|
    ensures |Escape(s)| == |s| ==> Escape(s) == s && forall i :: 0 <= i < |s| ==> !NeedsEscape(s[i])
    ensures (forall i :: 0 <= i < |s| ==> !NeedsEscape(s[i])) ==> Escape(s) == s
  {
    if s != "" {
      hide NeedsEscape;
      EscapeLengthens(s[1..]);
      assert [s[0]] + s[1..] == s;
      assert forall i :: 0 < i < |s| ==> s[i] == s[1..][i - 1];
      assert forall i :: 0 <= i < |s| - 1 ==> s[1..][i] == s[i + 1];
    }
  }

  /** Escaping puts one backslash before each character that needs it, in place, and nothing else; it can be
      read back, and it changes a text exactly when some character needs it. */
  lemma EscapeMarksSpecials(s: string)
    ensures Escape(s) == Concat(seq(|s|, i requires 0 <= i < |s| => Escaped(s[i])))
    ensures Unescape(Escape(s)) == s
    ensures Escape(s) == s <==> forall i :: 0 <= i < |s| ==> !NeedsEscape(s[i])
  {
    EscapePieces(s);
    EscapeReadsBack(s);
    EscapeLengthens(s);
  }

  // ---- the whole list ----

  /** `after` is `before` with the old token replaced. */
  ghost predicate Rejoined(before: string, old_: string, new_: string, after: string) {
    exists pieces :: IsCut(before, old_, pieces) && after == Join(pieces, new_)
  }

  /** One entry of the list: the plain form is replaced, then the escaped form if the token has one. */
  ghost predicate Substituted(before: string, s: Sub, after: string) {
    exists plain :: Rejoined(before, s.canonical, s.derived, plain) &&
      if exists i :: 0 <= i < |s.canonical| && NeedsEscape(s.canonical[i])
      then Rejoined(plain, Escape(s.canonical), Escape(s.derived), after)
      else after == plain
  }

  /** The text after each entry of the list, in its order. */
  ghost predicate Stages(texts: seq<string>, subs: seq<Sub>) {
    && |texts| == |subs| + 1
    && forall k :: 0 <= k < |subs| ==> Substituted(texts[k], subs[k], texts[k + 1])
  }

  lemma ReplaceIsRejoined(text: string, old_: string, new_: string)
    ensures Rejoined(text, old_, new_, Replace(text, old_, new_))
  {
    ReplaceIsRejoining(text, old_, new_);
  }

  lemma ApplyOneSubstitutes(text: string, s: Sub)
    ensures Substituted(text, s, ApplyOne(text, s))
  {
    var plain := Replace(text, s.canonical, s.derived);
    ReplaceIsRejoined(text, s.canonical, s.derived);
    ReplaceIsRejoined(plain, Escape(s.canonical), Escape(s.derived));
    EscapeMarksSpecials(s.canonical);
  }

  /** The list is applied entry by entry, each to the text the one before it left. */
  lemma {:induction false} ApplyTokensInOrder(text: string, subs: seq<Sub>)
    ensures exists texts :: Stages(texts, subs) && texts[0] == text && texts[|subs|] == ApplyTokens(text, subs)
    decreases |subs|
  {
    hide Substituted, ApplyOne;
    if subs == [] {
      assert Stages([text], subs);
    } else {
      var next := ApplyOne(text, subs[0]);
      ApplyOneSubstitutes(text, subs[0]);
      ApplyTokensInOrder(next, subs[1..]);
      var texts :| Stages(texts, subs[1..]) && texts[0] == next
                   && texts[|subs| - 1] == ApplyTokens(next, subs[1..]);
      var all := [text] + texts;
      forall k | 0 <= k < |subs| ensures Substituted(all[k], subs[k], all[k + 1]) {
        if k > 0 {
          assert Substituted(texts[k - 1], subs[1..][k - 1], texts[k]);
        }
      }
      assert Stages(all, subs);
    }
  }

  /** Replacing a token by itself changes nothing. */
  lemma {:induction false} ReplaceByItself(text: string, token: string)
    requires token != ""
    ensures Replace(text, token, token) == text
    decreases |text|
  {
    if token <= text {
      ReplaceByItself(text[|token|..], token);
    } else if text != "" {
      ReplaceByItself(text[1..], token);
    }
  }

  /** Substitutions whose tokens occur neither literally nor escaped leave the text alone, and
      successive lists of substitutions compose. */
  lemma {:induction false} ApplyTokensLaws(text: string, first: seq<Sub>, second: seq<Sub>)
    ensures ApplyTokens(text, first + second) == ApplyTokens(ApplyTokens(text, first), second)
    ensures (forall s :: s in first ==> !Occurs(s.canonical, text) && !Occurs(Escape(s.canonical), text))
            ==> ApplyTokens(text, first) == text
    decreases |first|
  {
    if first == [] {
      assert first + second == second;
    } else {
      assert (first + second)[1..] == first[1..] + second;
      ApplyTokensLaws(ApplyOne(text, first[0]), first[1..], second);
      var s := first[0];
      if !Occurs(s.canonical, text) && !Occurs(Escape(s.canonical), text) {
        ReplaceAbsent(text, s.canonical, s.derived);
        ReplaceAbsent(text, Escape(s.canonical), Escape(s.derived));
      }
    }
  }

  /** `apply_tokens` */
  method Apply(text: string, subs: seq<Sub>) returns (r: string)
    ensures r == ApplyTokens(text, subs)
    ensures exists texts :: Stages(texts, subs) && texts[0] == text && texts[|subs|] == r
  {
    ApplyTokensInOrder(text, subs);
    r := text;
    for i := 0 to |subs|
      invariant ApplyTokens(r, subs[i..]) == ApplyTokens(text, subs)
    {
      assert subs[i..][1..] == subs[i + 1..];
      r := Replace(r, subs[i].canonical, subs[i].derived);
      var escaped := Escape(subs[i].canonical);
      if escaped != subs[i].canonical {
        r := Replace(r, escaped, Escape(subs[i].derived));
      }
    }
  }
}
