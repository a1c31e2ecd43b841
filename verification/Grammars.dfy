/** Grammars and patterns, and what it means for a list of tokens to tile a text under a grammar. */
module Grammars {
  import opened TokenLists

  datatype Match = Match(start: nat, length: nat)

  /** The search is an arbitrary function, because the regular expression engine is not modelled. */
  datatype Pattern = Pattern(search: (string, nat) -> Option<Match>, greedy: bool, alias: string, inside: Option<nat>)

  datatype GrammarToken = GrammarToken(name: string, patterns: seq<Pattern>)

  type Grammar = seq<GrammarToken>

  /** All grammars; `inside` is an index into them. */
  type Library = seq<Grammar>

  ghost predicate Resolved(library: Library) {
    forall g, i, x :: 0 <= g < |library| && 0 <= i < |library[g]| && 0 <= x < |library[g][i].patterns| ==>
      var inside := library[g][i].patterns[x].inside; inside.Some? ==> inside.value < |library|
  }

  /** Pattern::match from a position on: a range of the text at or behind that position, or nothing. */
  function Find(pattern: Pattern, text: string, pos: nat): (m: Option<Match>)
    requires pos <= |text|
    ensures m.Some? ==> pos <= m.value.start && m.value.start + m.value.length <= |text|
  {
    var m := pattern.search(text, pos);
    if m.Some? && pos <= m.value.start && m.value.start + m.value.length <= |text| then m else None
  }

  /**
   A pattern matched the range of that size at an offset: a greedy one in the whole text, searched from
   some position, another one in a piece of the text.
   */
  ghost predicate MatchedAt(pattern: Pattern, text: string, offset: nat, size: nat) {
    if pattern.greedy then
      exists from :: 0 <= from <= |text| && Find(pattern, text, from) == Some(Match(offset, size))
    else
      exists lo: nat, hi: nat :: MatchedIn(pattern, text, offset, size, lo, hi)
  }

  ghost predicate MatchedIn(pattern: Pattern, text: string, offset: nat, size: nat, lo: nat, hi: nat) {
    lo <= offset && offset <= hi <= |text| && Find(pattern, text[lo..hi], 0) == Some(Match(offset - lo, size))
  }

  /** How many characters a list of tokens covers. */
  function Extent(ts: seq<Token>): nat {
    if ts == [] then 0 else Length(ts[0]) + Extent(ts[1..])
  }

  /**
   What a search at a text node finds, as a range of the text: a greedy pattern searches the whole text from
   the node on, another one the text of the node.
   */
  function Answer(pattern: Pattern, text: string, value: string, pos: nat): (m: Option<Match>)
    requires pos <= |text|
    ensures m.Some? ==> pos <= m.value.start
    ensures m.Some? ==> if pattern.greedy then m.value.start < |text| && m.value.start + m.value.length <= |text|
                        else m.value.start + m.value.length <= pos + |value|
  {
    var m := if pattern.greedy then Find(pattern, text, pos) else Find(pattern, value, 0);
    if m.None? || (pattern.greedy && m.value.start >= |text|) then None
    else if pattern.greedy then m
    else Some(Match(pos + m.value.start, m.value.length))
  }

  /** What a search at token k of a list finds. */
  function AnswerAt(pattern: Pattern, text: string, ts: seq<Token>, k: nat): (m: Option<Match>)
    requires k < |ts|
  {
    var pos := Extent(ts[..k]);
    if ts[k].Text? && pos <= |text| then Answer(pattern, text, ts[k].value, pos) else None
  }

  /** The match found from text token q is at token d: it is that token, or it starts inside of it. */
  ghost predicate Leads(pattern: Pattern, name: string, text: string, ts: seq<Token>, q: nat, d: nat)
    requires q < |ts| && d < |ts|
  {
    var m := AnswerAt(pattern, text, ts, q);
    && m.Some? && ts[d].Syntax?
    && var start := Extent(ts[..d]);
       || (start == m.value.start && ts[d].kind == name && ts[d].size == m.value.length)
       || start <= m.value.start < start + ts[d].size
  }

  /**
   Why a walk from token s to token c passes over a text token. A greedy pattern has a match behind it, found
   from it or from a text token in front of it; another one does not match it, or a token of its name follows.
   */
  ghost predicate PassedOver(pattern: Pattern, name: string, text: string, ts: seq<Token>, s: nat, c: nat, k: nat)
    requires c <= |ts| && k < c
  {
    ts[k].Text? ==>
      if pattern.greedy then
        exists q, d :: s <= q <= k < d < c && Leads(pattern, name, text, ts, q, d)
      else
        Find(pattern, ts[k].value, 0).None? || (k + 1 < |ts| && ts[k + 1].Syntax? && ts[k + 1].kind == name)
  }

  ghost predicate Walked(pattern: Pattern, name: string, text: string, ts: seq<Token>, s: nat, c: nat)
    requires c <= |ts|
  {
    forall k :: s <= k < c ==> PassedOver(pattern, name, text, ts, s, c, k)
  }

  /** How far a rematch looks; otherwise a walk goes on to the end of the text. */
  type Horizon = Option<nat>

  /** Where a walk ends: behind the last token, at the horizon, or where a greedy pattern finds nothing more. */
  ghost predicate WalkEnds(pattern: Pattern, text: string, ts: seq<Token>, horizon: Horizon, c: nat)
    requires c <= |ts|
  {
    || c == |ts|
    || (horizon.Some? && horizon.value <= Extent(ts[..c]))
    || (pattern.greedy && ts[c].Text? && AnswerAt(pattern, text, ts, c).None?)
  }

  /** A pattern has walked over the tokens, from token s to where a walk ends. */
  ghost predicate Searched(pattern: Pattern, name: string, text: string, ts: seq<Token>, horizon: Horizon, s: nat) {
    exists c :: s <= c <= |ts| && Walked(pattern, name, text, ts, s, c) && WalkEnds(pattern, text, ts, horizon, c)
  }

  /** There is a pattern y of token a, in front of pattern j of token t. */
  ghost predicate InFront(grammar: Grammar, a: nat, y: nat, t: nat, j: nat) {
    a < |grammar| && y < |grammar[a].patterns| && (a < t || (a == t && y < j))
  }

  /** Pattern x of token i is the last one before pattern j of token t. */
  ghost predicate IsLast(grammar: Grammar, i: nat, x: nat, t: nat, j: nat) {
    && InFront(grammar, i, x, t, j)
    && forall a: nat, y: nat :: InFront(grammar, a, y, t, j) ==> a < i || (a == i && y <= x)
  }

  /** The last pattern before pattern j of token t has walked over the tokens. */
  ghost predicate LastSearched(grammar: Grammar, text: string, ts: seq<Token>, horizon: Horizon, s: nat, t: nat, j: nat) {
    forall i: nat, x: nat :: IsLast(grammar, i, x, t, j) ==>
      Searched(grammar[i].patterns[x], grammar[i].name, text, ts, horizon, s)
  }

  /** No pattern of the grammar before pattern j of token t has an answer for the whole text. */
  ghost predicate NothingMatches(grammar: Grammar, text: string, t: nat, j: nat) {
    forall i: nat, x: nat :: i < |grammar| && x < |grammar[i].patterns| && (i < t || (i == t && x < j)) ==>
      Answer(grammar[i].patterns[x], text, text, 0).None?
  }

  /** The text stays in one piece exactly when nothing matches, and the last pattern has been searched for everywhere. */
  ghost predicate WellSplit(grammar: Grammar, text: string, ts: seq<Token>) {
    && (ts == [Text(text)] <==> text == [] || NothingMatches(grammar, text, |grammar|, 0))
    && (|ts| <= |text| ==> LastSearched(grammar, text, ts, None, 0, |grammar|, 0))
  }

  /** The tokens, one after the other, stand for the text from an offset on. */
  ghost predicate Tiled(library: Library, g: nat, text: string, ts: seq<Token>, offset: nat, fuel: nat)
    decreases ts, 2
  {
    || ts == []
    || (&& Stands(library, g, text, ts[0], offset, fuel)
        && Tiled(library, g, text, ts[1..], offset + Length(ts[0]), fuel))
  }

  /** A token stands for its range of the text; a syntax token is there because a pattern of the grammar matched. */
  ghost predicate Stands(library: Library, g: nat, text: string, t: Token, offset: nat, fuel: nat)
    decreases t, 1
  {
    && offset + Length(t) <= |text| && Flatten(t) == text[offset..offset + Length(t)]
    && (t.Syntax? ==> exists i: nat, x: nat :: Produced(library, g, text, t, offset, fuel, i, x))
  }

  /** Pattern x of grammar token i made this syntax token, and its inner grammar made the children. */
  ghost predicate Produced(library: Library, g: nat, text: string, t: Token, offset: nat, fuel: nat, i: nat, x: nat)
    decreases t, 0
  {
    && t.Syntax? && g < |library| && i < |library[g]| && x < |library[g][i].patterns|
    && offset + Length(t) <= |text|
    && var pattern := library[g][i].patterns[x]; var value := text[offset..offset + Length(t)];
    && t.kind == library[g][i].name && t.alias == pattern.alias && MatchedAt(pattern, text, offset, t.size)
    && if pattern.inside.None? || fuel == 0 then t.children == [Text(value)]
       else pattern.inside.value < |library| && Tokenized(library, pattern.inside.value, value, t.children, fuel - 1)
  }

  /**
   The tokenization of a text by a grammar, with inner grammars down to a depth: it is complete, and the
   grammar has split the text.
   */
  ghost predicate Tokenized(library: Library, g: nat, text: string, ts: seq<Token>, fuel: nat)
    requires g < |library|
    decreases ts, 3
  {
    && Tiled(library, g, text, ts, 0, fuel) && Extent(ts) == |text| && Separated(text, ts)
    && WellSplit(library[g], text, ts)
  }

  /** No text token is empty and no two stand side by side, except that an empty text is one empty token. */
  ghost predicate Separated(text: string, ts: seq<Token>) {
    if text == [] then
      ts == [Text([])]
    else
      forall i :: 0 <= i < |ts| ==> Alone(ts, i)
  }

  ghost predicate Alone(ts: seq<Token>, i: nat)
    requires i < |ts|
  {
    ts[i].Text? ==> ts[i].value != [] && (i + 1 < |ts| ==> ts[i + 1].Syntax?)
  }

  /** A finished tokenization of the text. */
  ghost predicate Complete(library: Library, g: nat, text: string, ts: seq<Token>, fuel: nat) {
    Tiled(library, g, text, ts, 0, fuel) && Extent(ts) == |text| && Separated(text, ts)
  }

  lemma {:induction false} ExtentConcat(x: seq<Token>, y: seq<Token>)
    ensures Extent(x + y) == Extent(x) + Extent(y)
  {
    if x == [] {
      assert x + y == y;
    } else {
      assert (x + y)[0] == x[0] && (x + y)[1..] == x[1..] + y;
      ExtentConcat(x[1..], y);
    }
  }

  lemma {:induction false} TiledConcat(library: Library, g: nat, text: string, x: seq<Token>, y: seq<Token>,
                                       offset: nat, fuel: nat)
    ensures Tiled(library, g, text, x + y, offset, fuel)
       <==> Tiled(library, g, text, x, offset, fuel) && Tiled(library, g, text, y, offset + Extent(x), fuel)
  {
    if x == [] {
      assert x + y == y;
    } else {
      assert (x + y)[0] == x[0] && (x + y)[1..] == x[1..] + y;
      TiledConcat(library, g, text, x[1..], y, offset + Length(x[0]), fuel);
    }
  }

  /** What tiles a text spells it, and every size in the tree is right. */
  lemma {:induction false} TiledFlattens(library: Library, g: nat, text: string, ts: seq<Token>, offset: nat,
                                         fuel: nat)
    requires Tiled(library, g, text, ts, offset, fuel) && offset <= |text|
    ensures offset + Extent(ts) <= |text| && FlattenAll(ts) == text[offset..offset + Extent(ts)] && AllSound(ts)
    decreases ts, 1
  {
    if ts != [] {
      var t := ts[0];
      TiledFlattens(library, g, text, ts[1..], offset + Length(t), fuel);
      var end := offset + Extent(ts);
      assert text[offset..offset + Length(t)] + text[offset + Length(t)..end] == text[offset..end];
      StandsSound(library, g, text, t, offset, fuel);
    }
  }

  lemma {:induction false} StandsSound(library: Library, g: nat, text: string, t: Token, offset: nat, fuel: nat)
    requires Stands(library, g, text, t, offset, fuel)
    ensures Sound(t)
    decreases t, 0
  {
    if t.Syntax? {
      var i: nat, x: nat :| Produced(library, g, text, t, offset, fuel, i, x);
      var pattern := library[g][i].patterns[x];
      var value := text[offset..offset + Length(t)];
      if pattern.inside.Some? && fuel > 0 {
        assert Tokenized(library, pattern.inside.value, value, t.children, fuel - 1);
        TiledFlattens(library, pattern.inside.value, value, t.children, 0, fuel - 1);
      } else {
        assert Sound([Text(value)][0]);
      }
    }
  }

  /** A finished tokenization loses nothing and adds nothing. */
  lemma CompleteFlattens(library: Library, g: nat, text: string, ts: seq<Token>, fuel: nat)
    requires Complete(library, g, text, ts, fuel)
    ensures FlattenAll(ts) == text && AllSound(ts)
  {
    TiledFlattens(library, g, text, ts, 0, fuel);
    assert text[0..|text|] == text;
  }
}
