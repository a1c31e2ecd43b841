/** The tokenizer: greedy and plain patterns split the text tokens of a list, with rematching. */
module SyntaxHighlighter {
  import opened Grammars
  import opened TokenLists

  /** The text as a list of tokens, or no token for no text. */
  function Piece(s: string): seq<Token> {
    if s == [] then [] else [Text(s)]
  }

  lemma TokensConcat(x: seq<Node>, y: seq<Node>)
    ensures TokensOf(x + y) == TokensOf(x) + TokensOf(y)
  {
  }

  lemma InsertSlices(s: seq<Node>, c: nat, x: Node)
    requires c <= |s|
    ensures InsertAt(s, c, x) == s[..c] + [x] + s[c..]
  {
  }

  lemma CutSlices(s: seq<Node>, added: seq<Node>, c: nat, count: nat)
    requires c + count <= |s|
    ensures var r := s[..c] + added + s[c..]; 
            r[..c + |added|] + r[c + |added| + count..] == s[..c] + added + s[c + count..]
  {
  }

  /** The matched nodes go, and the text in front of the match comes back as a node of its own. */
  method Cut(list: TokenList, current: Node, count: nat, before: string, ghost c: nat)
    returns (removeFrom: Node, ghost added: seq<Node>)
    requires list.Valid() && 0 < count && c + count <= |list.nodes| && current == list.nodes[c]
    modifies list, list.head, list.nodes
    ensures list.Valid() && list.head == old(list.head) && fresh(added) && TokensOf(added) == Piece(before)
    ensures list.nodes == old(list.nodes)[..c] + added + old(list.nodes)[c + count..]
    ensures removeFrom == Ring(list.nodes, list.head, c + |added|)
  {
    hide TokenList.Valid, InsertAt;
    ghost var nodes := list.nodes;
    list.PrevOf(c);
    removeFrom := current.prev;
    added := [];
    if |before| > 0 {
      removeFrom := list.AddAfter(removeFrom, Text(before), c);
      added := [removeFrom];
      InsertSlices(nodes, c, removeFrom);
    }
    CutSlices(nodes, added, c, count);
    list.RemoveRange(removeFrom, count, c + |added|);
  }

  /** The new token takes the place of the match, and the text behind the match follows it. */
  method Paste(list: TokenList, removeFrom: Node, token: Token, after: string, ghost d: nat)
    returns (node: Node, ghost added: seq<Node>)
    requires list.Valid() && d <= |list.nodes| && removeFrom == Ring(list.nodes, list.head, d)
    modifies list, list.head, list.nodes
    ensures list.Valid() && list.head == old(list.head) && fresh(added) && TokensOf(added) == [token] + Piece(after)
    ensures list.nodes == old(list.nodes)[..d] + added + old(list.nodes)[d..] && node == added[0]
  {
    hide TokenList.Valid, InsertAt;
    ghost var nodes := list.nodes;
    NeighboursInside(nodes, list.head, d);
    node := list.AddAfter(removeFrom, token, d);
    added := [node];
    InsertSlices(nodes, d, node);
    if |after| > 0 {
      ghost var longer := list.nodes;
      NeighboursInside(longer, list.head, d + 1);
      var rest := list.AddAfter(node, Text(after), d + 1);
      added := [node, rest];
      InsertSlices(longer, d + 1, rest);
      PasteSlices(nodes, d, node, rest);
    }
  }

  lemma NeighboursInside(s: seq<Node>, head: Node, d: nat)
    requires d <= |s|
    ensures Ring(s, head, d) == head || Ring(s, head, d) in s
    ensures Ring(s, head, d + 1) == head || Ring(s, head, d + 1) in s
  {
  }

  lemma PasteSlices(s: seq<Node>, d: nat, x: Node, y: Node)
    requires d <= |s|
    ensures var r := s[..d] + [x] + s[d..]; r[..d + 1] + [y] + r[d + 1..] == s[..d] + [x, y] + s[d..]
  {
  }

  /** The list of tokens after a match, in terms of the tokens before it. */
  function Spliced(ts: seq<Token>, c: nat, count: nat, middle: seq<Token>): seq<Token>
    requires c + count <= |ts|
  {
    ts[..c] + middle + ts[c + count..]
  }

  lemma ExtentStep(ts: seq<Token>, c: nat)
    requires c < |ts|
    ensures Extent(ts[..c + 1]) == Extent(ts[..c]) + Length(ts[c])
  {
    assert ts[..c + 1] == ts[..c] + [ts[c]];
    assert [ts[c]][1..] == [];
    ExtentConcat(ts[..c], [ts[c]]);
  }

  lemma ExtentSplit(ts: seq<Token>, c: nat)
    requires c <= |ts|
    ensures Extent(ts) == Extent(ts[..c]) + Extent(ts[c..])
  {
    assert ts == ts[..c] + ts[c..];
    ExtentConcat(ts[..c], ts[c..]);
  }

  /** A token of a tiling stands at its offset. */
  lemma StandsAt(library: Library, g: nat, text: string, ts: seq<Token>, c: nat, fuel: nat)
    requires Tiled(library, g, text, ts, 0, fuel) && c < |ts|
    ensures Stands(library, g, text, ts[c], Extent(ts[..c]), fuel)
  {
    assert ts == ts[..c] + ts[c..];
    TiledConcat(library, g, text, ts[..c], ts[c..], 0, fuel);
  }

  lemma PieceTiles(library: Library, g: nat, text: string, lo: nat, hi: nat, fuel: nat)
    requires lo <= hi <= |text|
    ensures Tiled(library, g, text, Piece(text[lo..hi]), lo, fuel) && Extent(Piece(text[lo..hi])) == hi - lo
  {
    var s := text[lo..hi];
    if s != [] {
      assert [Text(s)][1..] == [];
      assert Stands(library, g, text, Text(s), lo, fuel);
    }
  }

  /** What stands between two points of a tiling may be replaced by another tiling of the same range. */
  lemma SpliceTiled(library: Library, g: nat, text: string, ts: seq<Token>, c: nat, count: nat, middle: seq<Token>, fuel: nat)
    requires Tiled(library, g, text, ts, 0, fuel) && c + count <= |ts|
    requires Tiled(library, g, text, middle, Extent(ts[..c]), fuel)
    requires Extent(ts[..c]) + Extent(middle) == Extent(ts[..c + count])
    ensures Tiled(library, g, text, Spliced(ts, c, count, middle), 0, fuel)
    ensures Extent(Spliced(ts, c, count, middle)) == Extent(ts)
  {
    hide Tiled, Extent;
    var front, back := ts[..c], ts[c + count..];
    ExtentSplit(ts, c + count);
    assert ts == ts[..c + count] + back;
    assert ts[..c + count][..c] == front && ts[..c + count] == front + ts[c..c + count];
    TiledConcat(library, g, text, ts[..c + count], back, 0, fuel);
    TiledConcat(library, g, text, front, ts[c..c + count], 0, fuel);
    TiledConcat(library, g, text, front, middle, 0, fuel);
    ExtentConcat(front, middle);
    TiledConcat(library, g, text, front + middle, back, 0, fuel);
    ExtentConcat(front + middle, back);
  }

  /** A match over text tokens and whole syntax tokens keeps the tokenization complete. */
  lemma SpliceComplete(library: Library, g: nat, text: string, ts: seq<Token>, c: nat, count: nat, from: nat, t: Token,
                       fuel: nat)
    requires Complete(library, g, text, ts, fuel) && text != [] && 0 < count && c + count <= |ts|
    requires ts[c].Text? && (c + count == |ts| || ts[c + count].Syntax?)
    requires Extent(ts[..c]) <= from && from + Length(t) <= Extent(ts[..c + count]) <= |text|
    requires t.Syntax? && Stands(library, g, text, t, from, fuel)
    ensures var before := Piece(text[Extent(ts[..c])..from]);
            var after := Piece(text[from + t.size..Extent(ts[..c + count])]);
            var r := Spliced(ts, c, count, before + [t] + after);
            && Complete(library, g, text, r, fuel) && r[c + |before|] == t && Extent(r[..c + |before|]) == from
            && |r| == |ts| - count + |before| + 1 + |after| && (before != [] ==> r[c].Text?)
  {
    hide Tiled, Extent, Stands;
    var lo, hi := Extent(ts[..c]), Extent(ts[..c + count]);
    var before, after := Piece(text[lo..from]), Piece(text[from + t.size..hi]);
    var middle := before + [t] + after;
    var r := Spliced(ts, c, count, middle);
    PieceTiles(library, g, text, lo, from, fuel);
    PieceTiles(library, g, text, from + t.size, hi, fuel);
    OneTiles(library, g, text, t, from, fuel);
    TiledConcat(library, g, text, before, [t], lo, fuel);
    ExtentConcat(before, [t]);
    TiledConcat(library, g, text, before + [t], after, lo, fuel);
    ExtentConcat(before + [t], after);
    SpliceTiled(library, g, text, ts, c, count, middle, fuel);
    SpliceSeparated(text, ts, c, count, text[lo..from], t, text[from + t.size..hi]);
    assert r[..c + |before|] == ts[..c] + before;
    ExtentConcat(ts[..c], before);
  }

  lemma OneTiles(library: Library, g: nat, text: string, t: Token, offset: nat, fuel: nat)
    requires Stands(library, g, text, t, offset, fuel)
    ensures Tiled(library, g, text, [t], offset, fuel) && Extent([t]) == Length(t)
  {
    assert [t][1..] == [];
  }

  lemma SpliceSeparated(text: string, ts: seq<Token>, c: nat, count: nat, before: string, t: Token, after: string)
    requires Separated(text, ts) && text != [] && 0 < count && c + count <= |ts| && t.Syntax?
    requires ts[c].Text? && (c + count == |ts| || ts[c + count].Syntax?)
    ensures Separated(text, Spliced(ts, c, count, Piece(before) + [t] + Piece(after)))
  {
    var middle := Piece(before) + [t] + Piece(after);
    var r := Spliced(ts, c, count, middle);
    forall i | 0 <= i < |r|
      ensures Alone(r, i)
    {
      if i < c {
        assert Alone(ts, i);
        assert i + 1 == c ==> ts[i].Syntax?;
      } else if i >= c + |middle| {
        assert Alone(ts, i - |middle| + count);
      }
    }
  }

  /** The token a pattern makes for a range it matched stands for that range. */
  lemma MadeStands(library: Library, g: nat, text: string, i: nat, x: nat, from: nat, size: nat,
                   children: seq<Token>, fuel: nat)
    requires g < |library| && i < |library[g]| && x < |library[g][i].patterns| && from + size <= |text|
    requires var pattern := library[g][i].patterns[x]; var value := text[from..from + size];
             && MatchedAt(pattern, text, from, size)
             && if pattern.inside.None? || fuel == 0 then children == [Text(value)]
                else pattern.inside.value < |library| && Tokenized(library, pattern.inside.value, value, children, fuel - 1)
    ensures var t := Syntax(library[g][i].name, children, library[g][i].patterns[x].alias, size);
            Stands(library, g, text, t, from, fuel)
  {
    var pattern := library[g][i].patterns[x];
    var value := text[from..from + size];
    var t := Syntax(library[g][i].name, children, pattern.alias, size);
    if pattern.inside.Some? && fuel > 0 {
      assert Complete(library, pattern.inside.value, value, children, fuel - 1);
      CompleteFlattens(library, pattern.inside.value, value, children, fuel - 1);
    } else {
      assert FlattenAll(children) == Flatten(children[0]) + FlattenAll(children[1..]) == value;
    }
    assert Produced(library, g, text, t, from, fuel, i, x);
  }

  lemma WholeIsComplete(library: Library, g: nat, text: string, fuel: nat)
    ensures Complete(library, g, text, [Text(text)], fuel)
  {
    assert text[0..|text|] == text;
    assert [Text(text)][1..] == [];
    assert Stands(library, g, text, Text(text), 0, fuel);
  }

  /** tokenize: the nesting of inner grammars is cut off when the fuel is used up. */
  method Tokenize(library: Library, text: string, g: nat, fuel: nat) returns (tokens: seq<Token>)
    requires Resolved(library) && g < |library|
    ensures Tokenized(library, g, text, tokens, fuel)
    decreases fuel, |library[g]| + 1, 0, 0
  {
    hide Answer, LastSearched;
    var list := new TokenList(text);
    ghost var before := list.nodes;
    WholeIsComplete(library, g, text, fuel);
    var reach, applied, aborted := MatchGrammar(library, text, list, g, list.head, 0, None, fuel, 0, |library[g]|, 0);
    tokens := list.Contents();
  }

  /** The children of the token for a match. */
  method Expand(library: Library, value: string, inside: Option<nat>, fuel: nat) returns (children: seq<Token>)
    requires Resolved(library) && (inside.Some? ==> inside.value < |library|)
    ensures if inside.None? || fuel == 0 then children == [Text(value)]
            else Tokenized(library, inside.value, value, children, fuel - 1)
    decreases fuel, 0, 0, 0
  {
    if inside.Some? && fuel > 0 {
      children := Tokenize(library, value, inside.value, fuel - 1);
    } else {
      children := [Text(value)];
    }
  }

  /** The nodes in front of a starting point, and the token at it, that rematching leaves alone. */
  ghost function Fixed(nodes: seq<Node>, s: nat): nat {
    if s < |nodes| && TokensOf(nodes)[s].Syntax? then s + 1 else s
  }

  ghost predicate Kept(before: seq<Node>, nodes: seq<Node>, s: nat)
    requires s <= |before|
  {
    var k := Fixed(before, s);
    k <= |nodes| && nodes[..k] == before[..k]
  }

  /** The list is well formed and its tokens are a tokenization of the text. */
  ghost predicate Ready(library: Library, g: nat, text: string, list: TokenList, fuel: nat)
    reads list, list.head, list.nodes
  {
    list.Valid() && Complete(library, g, text, TokensOf(list.nodes), fuel)
  }

  /** Replaces the nodes under a match by the token for it, with the text that is left on both sides. */
  method Replace(library: Library, text: string, list: TokenList, g: nat, i: nat, x: nat, current: Node, count: nat,
                 pos: nat, end: nat, from: nat, size: nat, fuel: nat, ghost c: nat) returns (node: Node, ghost d: nat)
    requires Resolved(library) && g < |library| && i < |library[g]| && x < |library[g][i].patterns|
    requires Ready(library, g, text, list, fuel) && text != []
    requires 0 < count && c + count <= |list.nodes| && current == list.nodes[c]
    requires var ts := TokensOf(list.nodes); ts[c].Text? && (c + count == |ts| || ts[c + count].Syntax?)
    requires pos == Extent(TokensOf(list.nodes)[..c]) && end == Extent(TokensOf(list.nodes)[..c + count])
    requires pos <= from && from + size <= end <= |text|
    requires MatchedAt(library[g][i].patterns[x], text, from, size)
    modifies list, list.head, list.nodes
    ensures Ready(library, g, text, list, fuel) && list.head == old(list.head)
    ensures forall n :: n in list.nodes ==> n in old(list.nodes) || fresh(n)
    ensures c <= d < |list.nodes| && node == list.nodes[d] && list.nodes[..c] == old(list.nodes)[..c]
    ensures var ts := TokensOf(list.nodes);
            ts[d].Syntax? && ts[d].kind == library[g][i].name && ts[d].size == size && Extent(ts[..d]) == from
    ensures d == c + (if pos < from then 1 else 0) && (pos < from ==> TokensOf(list.nodes)[c].Text?) && fresh(node)
    ensures |list.nodes|
         == |old(list.nodes)| - count + 1 + (if pos < from then 1 else 0) + (if from + size < end then 1 else 0)
    decreases fuel, i, x, 1
  {
    hide TokenList.Valid, Complete, MatchedAt, Extent, Resolved, Stands, Spliced, TokensOf;
    ghost var nodes := list.nodes;
    ghost var ts := TokensOf(nodes);
    var pattern := library[g][i].patterns[x];
    var before := text[pos..from];
    var after := text[from + size..end];
    var removeFrom, front := Cut(list, current, count, before, c);
    InsideResolved(library, g, i, x);
    var children := Expand(library, text[from..from + size], pattern.inside, fuel);
    var token := Syntax(library[g][i].name, children, pattern.alias, size);
    MadeStands(library, g, text, i, x, from, size, children, fuel);
    SpliceComplete(library, g, text, ts, c, count, from, token, fuel);
    ghost var back;
    node, back := Paste(list, removeFrom, token, after, c + |front|);
    d := c + |front|;
    SplicedTokens(nodes, c, count, front, back, Piece(before), token, Piece(after));
  }

  lemma InsideResolved(library: Library, g: nat, i: nat, x: nat)
    requires Resolved(library) && g < |library| && i < |library[g]| && x < |library[g][i].patterns|
    ensures var inside := library[g][i].patterns[x].inside; inside.Some? ==> inside.value < |library|
  {
  }

  /** Cutting and pasting nodes splices their tokens. */
  lemma SplicedTokens(nodes: seq<Node>, c: nat, count: nat, front: seq<Node>, back: seq<Node>,
                      before: seq<Token>, token: Token, after: seq<Token>)
    requires c + count <= |nodes| && TokensOf(front) == before && TokensOf(back) == [token] + after
    ensures var cut := nodes[..c] + front + nodes[c + count..];
            var r := cut[..c + |front|] + back + cut[c + |front|..];
            && r == nodes[..c] + front + back + nodes[c + count..]
            && TokensOf(r) == Spliced(TokensOf(nodes), c, count, before + [token] + after)
            && r[..c] == nodes[..c] && r[c + |front|] == back[0]
  {
    var r := nodes[..c] + front + back + nodes[c + count..];
    TokensConcat(nodes[..c], front);
    TokensConcat(nodes[..c] + front, back);
    TokensConcat(nodes[..c] + front + back, nodes[c + count..]);
    assert TokensOf(nodes[..c]) == TokensOf(nodes)[..c];
    assert TokensOf(nodes[c + count..]) == TokensOf(nodes)[c + count..];
    assert TokensOf(r) == TokensOf(nodes)[..c] + before + ([token] + after) + TokensOf(nodes)[c + count..];
  }

  /** Offsets do not decrease along a list. */
  lemma ExtentMonotone(ts: seq<Token>, c: nat, d: nat)
    requires c <= d <= |ts|
    ensures Extent(ts[..c]) <= Extent(ts[..d]) <= Extent(ts)
  {
    ExtentSplit(ts[..d], c);
    assert ts[..d][..c] == ts[..c];
    ExtentSplit(ts, d);
  }

  /** A node of the list, its token, and the next entry. */
  lemma AtNode(list: TokenList, c: nat)
    requires list.Valid() && c < |list.nodes|
    ensures var ts := TokensOf(list.nodes);
            && list.nodes[c].token == Some(ts[c]) && Extent(ts[..c + 1]) == Extent(ts[..c]) + Length(ts[c]) <= Extent(ts)
            && list.nodes[c].next == Ring(list.nodes, list.head, c + 2) && list.nodes[c] != list.head
            && (list.nodes[c].next == list.head <==> c + 1 == |list.nodes|)
            && (c + 1 < |list.nodes| ==> list.nodes[c].next == list.nodes[c + 1])
  {
    list.EntryAt(c);
    list.EntryAt(c + 1);
    list.NextOf(c + 1);
    ExtentStep(TokensOf(list.nodes), c);
    ExtentMonotone(TokensOf(list.nodes), c, c + 1);
  }

  /** The node that contains a position, and where that node starts. The walk cannot reach the sentinel. */
  method Locate(list: TokenList, current: Node, pos: nat, from: nat, ghost c: nat)
    returns (node: Node, start: nat, ghost d: nat)
    requires list.Valid() && c < |list.nodes| && current == list.nodes[c]
    requires pos == Extent(TokensOf(list.nodes)[..c]) <= from < Extent(TokensOf(list.nodes))
    ensures c <= d < |list.nodes| && node == list.nodes[d] && start == Extent(TokensOf(list.nodes)[..d])
    ensures pos <= start <= from < start + Length(TokensOf(list.nodes)[d])
    ensures from < pos + Length(TokensOf(list.nodes)[c]) ==> d == c
  {
    hide TokenList.Valid, Extent, Length;
    ghost var ts := TokensOf(list.nodes);
    node, d := current, c;
    AtNode(list, c);
    var p := pos + Length(node.token.value);
    while from >= p
      invariant c <= d < |list.nodes| && node == list.nodes[d] && node.token == Some(ts[d])
      invariant p == Extent(ts[..d + 1]) == Extent(ts[..d]) + Length(ts[d]) && Extent(ts[..d]) <= from
      invariant d > c ==> pos + Length(ts[c]) <= from
      decreases |list.nodes| - d
    {
      assert ts[..|ts|] == ts;
      AtNode(list, d);
      AtNode(list, d + 1);
      node := node.next;
      d := d + 1;
      p := p + Length(node.token.value);
    }
    start := p - Length(node.token.value);
    ExtentMonotone(ts, c, d);
  }

  /** How many nodes a match up to a position affects, and where the last of them ends. */
  method CountAffected(list: TokenList, node: Node, start: nat, to: nat, ghost d: nat) returns (count: nat, end: nat)
    requires list.Valid() && d < |list.nodes| && node == list.nodes[d] && TokensOf(list.nodes)[d].Text?
    requires start == Extent(TokensOf(list.nodes)[..d]) && to <= Extent(TokensOf(list.nodes))
    ensures 0 < count && d + count <= |list.nodes| && to <= end
    ensures start + Length(TokensOf(list.nodes)[d]) <= end
         == Extent(TokensOf(list.nodes)[..d + count]) <= Extent(TokensOf(list.nodes))
    ensures d + count == |list.nodes| || TokensOf(list.nodes)[d + count].Syntax?
    ensures Alone(TokensOf(list.nodes), d) && to <= start + Length(TokensOf(list.nodes)[d]) ==> count == 1
  {
    hide TokenList.Valid, Extent, Length;
    ghost var ts := TokensOf(list.nodes);
    var k: Node := node;
    count, end := 0, start;
    AtNode(list, d);
    while k != list.head && (end < to || k.token.value.Text?)
      invariant d + count <= |list.nodes| && end == Extent(ts[..d + count])
      invariant if d + count < |list.nodes| then k == list.nodes[d + count] && k != list.head && k.token == Some(ts[d + count])
                else k == list.head
      invariant count > 0 ==> start + Length(ts[d]) <= end
      invariant Alone(ts, d) && to <= start + Length(ts[d]) ==> count <= 1
      decreases |list.nodes| - d - count
    {
      AtNode(list, d + count);
      if d + count + 1 < |list.nodes| {
        AtNode(list, d + count + 1);
      }
      count := count + 1;
      end := end + Length(k.token.value);
      k := k.next;
    }
    ExtentMonotone(ts, d + count, |ts|);
    assert ts[..|ts|] == ts;
  }

  lemma AnswerMatches(pattern: Pattern, text: string, value: string, pos: nat)
    requires pos + |value| <= |text| && value == text[pos..pos + |value|]
    ensures var m := Answer(pattern, text, value, pos); m.Some? ==> MatchedAt(pattern, text, m.value.start, m.value.length)
  {
    hide Find;
    var m := Answer(pattern, text, value, pos);
    if m.Some? && !pattern.greedy {
      assert MatchedIn(pattern, text, m.value.start, m.value.length, pos, pos + |value|);
    }
  }

  /**
   What one turn at text node c does: nothing when nothing is found; otherwise there is a token for exactly
   the range found, unless the match of a greedy pattern starts inside another token.
   */
  ghost predicate Turned(name: string, m: Option<Match>, greedy: bool, before: seq<Node>, nodes: seq<Node>, c: nat,
                         d: nat, stop: bool)
    requires d < |nodes| && c <= d
  {
    var ts := TokensOf(nodes);
    if m.None? then
      nodes == before && d == c && stop == greedy
    else
      && !stop && ts[d].Syntax?
      && if greedy && nodes == before then Extent(ts[..d]) <= m.value.start < Extent(ts[..d]) + ts[d].size
         else ts[d].kind == name && ts[d].size == m.value.length && Extent(ts[..d]) == m.value.start
              && (d > c ==> ts[c].Text?) && (!greedy ==> d <= c + 1)
  }

  /**
   How far a match affects the tokens: to the end of the text token e that it starts in, or, when it goes on
   behind that token, as far as the rematch from the new token d on got.
   */
  ghost predicate Affected(grammar: Grammar, text: string, was: seq<Token>, ts: seq<Token>, applied: set<(nat, nat)>,
                           greedy: bool, m: Match, c: nat, e: nat, d: nat, r: nat, i: nat, x: nat)
  {
    && e < |was| && was[e].Text?
    && (if greedy then Extent(was[..e]) <= m.start < Extent(was[..e + 1]) else e == c)
    && if m.start + m.length <= Extent(was[..e + 1]) then r == Extent(was[..e + 1])
       else m.start + m.length <= r && (|ts| > |text| || Rematched(grammar, text, ts, applied, r, d, i, x))
  }

  /** A token made of the match in text node e, which the turn at text node c has found. */
  lemma TurnedTo(name: string, m: Match, greedy: bool, before: seq<Node>, nodes: seq<Node>, c: nat, e: nat, d: nat)
    requires c <= e <= d <= e + 1 && d < |nodes| && e < |before| && nodes[..e] == before[..e] && nodes[d] !in before
    requires TokensOf(before)[c].Text? && (!greedy ==> e == c)
    requires var ts := TokensOf(nodes);
             && ts[d].Syntax? && ts[d].kind == name && ts[d].size == m.length && Extent(ts[..d]) == m.start
             && (d > e ==> ts[e].Text?)
    ensures Turned(name, Some(m), greedy, before, nodes, c, d, false)
    ensures nodes != before && nodes[..c] == before[..c]
  {
    hide Extent;
    assert nodes[..c] == nodes[..e][..c];
    assert d < |before| ==> before[d] in before;
    if c < e {
      assert nodes[c] == nodes[..e][c] == before[..e][c] == before[c];
    }
  }

  /** Nodes removed behind the first one are affected only by a match that goes on behind it. */
  lemma AffectedTo(grammar: Grammar, text: string, was: seq<Token>, ts: seq<Token>, applied: set<(nat, nat)>,
                   greedy: bool, m: Match, c: nat, e: nat, d: nat, r: nat, i: nat, x: nat, count: nat)
    requires 0 < count && e + count <= |was| && was[e].Text?
    requires if greedy then Extent(was[..e]) <= m.start < Extent(was[..e + 1]) else e == c
    requires m.start + m.length <= Extent(was[..e + count])
    requires m.start + m.length <= Extent(was[..e + 1]) ==> count == 1
    requires if count == 1 then r == Extent(was[..e + 1])
             else Extent(was[..e + count]) <= r && (|ts| > |text| || Rematched(grammar, text, ts, applied, r, d, i, x))
    ensures Affected(grammar, text, was, ts, applied, greedy, m, c, e, d, r, i, x)
  {
    hide Rematched, Extent;
  }

  /** A text node of a finished tokenization: its text is the text from its offset on. */
  lemma TextNode(library: Library, g: nat, text: string, ts: seq<Token>, c: nat, fuel: nat)
    requires Complete(library, g, text, ts, fuel) && text != [] && c < |ts| && ts[c].Text?
    ensures var pos := Extent(ts[..c]); var value := ts[c].value;
            value != [] && pos + |value| <= |text| && value == text[pos..pos + |value|]
    ensures Extent(ts) == |text| && Alone(ts, c)
  {
    StandsAt(library, g, text, ts, c, fuel);
    assert Alone(ts, c);
  }

  /** The node that a match starts in, and how many nodes it affects; a match of a plain pattern affects its own. */
  method Place(library: Library, text: string, list: TokenList, g: nat, current: Node, pos: nat, from: nat, size: nat,
               greedy: bool, ghost fuel: nat, ghost c: nat)
    returns (node: Node, start: nat, count: nat, end: nat, ghost e: nat)
    requires Ready(library, g, text, list, fuel) && text != []
    requires c < |list.nodes| && current == list.nodes[c] && TokensOf(list.nodes)[c].Text?
    requires pos == Extent(TokensOf(list.nodes)[..c]) <= from && from + size <= |text|
    requires if greedy then from < |text| else from + size <= pos + |TokensOf(list.nodes)[c].value|
    ensures c <= e < |list.nodes| && node == list.nodes[e] && node.token == Some(TokensOf(list.nodes)[e])
    ensures pos <= start == Extent(TokensOf(list.nodes)[..e]) <= from && (!greedy ==> e == c)
    ensures greedy ==> from < Extent(TokensOf(list.nodes)[..e + 1]) == start + Length(TokensOf(list.nodes)[e])
    ensures TokensOf(list.nodes)[e].Text? ==>
              var ts := TokensOf(list.nodes);
              && 0 < count && e + count <= |ts| && (e + count == |ts| || ts[e + count].Syntax?)
              && from + size <= end == Extent(ts[..e + count]) <= |text|
              && (from + size <= Extent(ts[..e + 1]) ==> count == 1)
              && (e == c ==> ts[e] == ts[c] && start + |ts[c].value| <= end)
  {
    hide TokenList.Valid, Complete, Extent, TokensOf;
    ghost var ts := TokensOf(list.nodes);
    AtNode(list, c);
    TextNode(library, g, text, ts, c, fuel);
    node, start, e := current, pos, c;
    count, end := 1, pos + |current.token.value.value|;
    if greedy {
      node, start, e := Locate(list, current, pos, from, c);
      AtNode(list, e);
      if node.token.value.Syntax? {
        return;
      }
      TextNode(library, g, text, ts, e, fuel);
      count, end := CountAffected(list, node, start, from + size, e);
    }
  }

  /**
   One turn of the walk at a text node. The walk goes on behind the node that is returned; every turn
   gets ahead in the text, or makes the list longer.
   */
  method MatchNode(library: Library, text: string, list: TokenList, g: nat, i: nat, x: nat, current: Node, pos: nat,
                   rematched: bool, limit: nat, fuel: nat, ghost c: nat)
    returns (node: Node, offset: nat, reach: nat, stop: bool, ghost e: nat, ghost d: nat, ghost r: nat,
             ghost applied: set<(nat, nat)>)
    requires Resolved(library) && g < |library| && i < |library[g]| && x < |library[g][i].patterns|
    requires Ready(library, g, text, list, fuel) && text != []
    requires c < |list.nodes| && current == list.nodes[c] && TokensOf(list.nodes)[c].Text?
    requires pos == Extent(TokensOf(list.nodes)[..c]) <= |text|
    modifies list, list.head, list.nodes
    ensures Ready(library, g, text, list, fuel) && list.head == old(list.head)
    ensures forall n :: n in list.nodes ==> n in old(list.nodes) || fresh(n)
    ensures c <= d < |list.nodes| && node == list.nodes[d] && list.nodes[..c] == old(list.nodes)[..c]
    ensures var pattern := library[g][i].patterns[x];
            var m := Answer(pattern, text, old(TokensOf(list.nodes)[c].value), pos);
            && Turned(library[g][i].name, m, pattern.greedy, old(list.nodes), list.nodes, c, d, stop)
            && if m.None? || (pattern.greedy && list.nodes == old(list.nodes)) then r == 0
               else Affected(library[g], text, old(TokensOf(list.nodes)), TokensOf(list.nodes), applied, pattern.greedy,
                             m.value, c, e, d, r, i, x)
    ensures offset == Extent(TokensOf(list.nodes)[..d]) && reach == (if rematched && limit < r then r else limit)
    ensures var next := offset + Length(TokensOf(list.nodes)[d]);
            stop || pos < next || (pos == next && |list.nodes| > |old(list.nodes)|)
    ensures Before(applied, i, x)
    decreases fuel, i, x, 3
  {
    hide TokenList.Valid, Complete, MatchedAt, Extent, Resolved, Find, Rematched, Affected, TokensOf;
    ghost var nodes, ts := list.nodes, TokensOf(list.nodes);
    AtNode(list, c);
    TextNode(library, g, text, ts, c, fuel);
    node, offset, reach, stop, e, d, r, applied := current, pos, limit, false, c, c, 0, {};
    var pattern := library[g][i].patterns[x];
    var m := Answer(pattern, text, current.token.value.value, pos);
    if m.None? {
      stop := pattern.greedy;
      return;
    }
    AnswerMatches(pattern, text, current.token.value.value, pos);
    var from, size := m.value.start, m.value.length;
    var count, end;
    node, offset, count, end, e := Place(library, text, list, g, current, pos, from, size, pattern.greedy, fuel, c);
    d := e;
    if node.token.value.Syntax? {
      return;
    }
    var start := offset;
    offset := from;
    node, reach, d, r, applied := Split(library, text, list, g, i, x, node, count, start, end, from, size, rematched,
                                        limit, fuel, e);
    TurnedTo(library[g][i].name, m.value, pattern.greedy, nodes, list.nodes, c, e, d);
    AffectedTo(library[g], text, ts, TokensOf(list.nodes), applied, pattern.greedy, m.value, c, e, d, r, i, x, count);
  }

  /** Replaces the nodes under a match, and matches again if the match took more than one node. */
  method Split(library: Library, text: string, list: TokenList, g: nat, i: nat, x: nat, current: Node, count: nat,
               pos: nat, end: nat, from: nat, size: nat, rematched: bool, limit: nat, fuel: nat, ghost c: nat)
    returns (node: Node, reach: nat, ghost d: nat, ghost r: nat, ghost applied: set<(nat, nat)>)
    requires Resolved(library) && g < |library| && i < |library[g]| && x < |library[g][i].patterns|
    requires Ready(library, g, text, list, fuel) && text != []
    requires 0 < count && c + count <= |list.nodes| && current == list.nodes[c]
    requires var ts := TokensOf(list.nodes); ts[c].Text? && (c + count == |ts| || ts[c + count].Syntax?)
    requires pos == Extent(TokensOf(list.nodes)[..c]) && end == Extent(TokensOf(list.nodes)[..c + count])
    requires pos <= from && from + size <= end <= |text|
    requires MatchedAt(library[g][i].patterns[x], text, from, size)
    modifies list, list.head, list.nodes
    ensures Ready(library, g, text, list, fuel) && list.head == old(list.head)
    ensures forall n :: n in list.nodes ==> n in old(list.nodes) || fresh(n)
    ensures c <= d < |list.nodes| && node == list.nodes[d] && list.nodes[..c] == old(list.nodes)[..c]
    ensures var ts := TokensOf(list.nodes);
            ts[d].Syntax? && ts[d].kind == library[g][i].name && ts[d].size == size && Extent(ts[..d]) == from
    ensures d == c + (if pos < from then 1 else 0) && (pos < from ==> TokensOf(list.nodes)[c].Text?)
    ensures node !in old(list.nodes)
    ensures count == 1 ==>
              |list.nodes| == |old(list.nodes)| + (if pos < from then 1 else 0) + (if from + size < end then 1 else 0)
    ensures reach == (if rematched && limit < r then r else limit) && Before(applied, i, x)
    ensures if count == 1 then r == end
            else end <= r && (|list.nodes| > |text|
                              || Rematched(library[g], text, TokensOf(list.nodes), applied, r, d, i, x))
    decreases fuel, i, x, 2
  {
    hide TokenList.Valid, Complete, MatchedAt, Extent, Resolved, Find, Rematched;
    node, d := Replace(library, text, list, g, i, x, current, count, pos, end, from, size, fuel, c);
    reach, r, applied := if rematched && limit < end then end else limit, end, {};
    if count > 1 {
      assert forall k :: 0 <= k < |list.nodes| ==> list.nodes[k] in list.nodes;
      var nested;
      ghost var nodes := list.nodes;
      nested, applied := MatchAgain(library, text, list, g, i, x, node, from, end, fuel, d);
      assert list.nodes[..c] == list.nodes[..d][..c] == nodes[..d][..c];
      reach := if rematched && reach < nested then nested else reach;
      r := nested;
    }
  }

  /** A rematch looks as far as its reach. */
  function Upto(rematched: bool, reach: nat): Horizon {
    if rematched then Some(reach) else None
  }

  /** What a rematch is told: whose pattern, by name and number, caused it, and how far it must look. */
  datatype Rematch = Rematch(token: string, reach: nat, j: nat)

  lemma KeptStep(before: seq<Node>, now: seq<Node>, next: seq<Node>, s: nat, c: nat)
    requires s <= |before| && Kept(before, now, s) && s <= c < |now| && TokensOf(now)[c].Text?
    requires c <= |next| && next[..c] == now[..c]
    ensures Kept(before, next, s)
  {
    var k := Fixed(before, s);
    assert k > s ==> now[..k][s] == before[..k][s];
    assert next[..k] == next[..c][..k] && now[..k] == now[..c][..k];
  }

  lemma KeptTrans(before: seq<Node>, now: seq<Node>, next: seq<Node>, s: nat)
    requires s <= |before| && Kept(before, now, s) && s <= |now| && Kept(now, next, s)
    ensures Kept(before, next, s)
  {
    var k := Fixed(before, s);
    if k > s {
      assert now[s] == now[..k][s] == before[s];
    }
    assert next[..k] == next[..Fixed(now, s)][..k] && now[..k] == now[..Fixed(now, s)][..k];
  }

  /** The starting point of a walk is where it was. */
  lemma KeptStart(before: seq<Node>, now: seq<Node>, head: Node, s: nat)
    requires s <= |before| && Kept(before, now, s)
    ensures s <= |now| && Ring(before, head, s) == Ring(now, head, s)
    ensures before[..s] == now[..s] && TokensOf(before)[..s] == TokensOf(now)[..s]
    ensures s < |before| && TokensOf(before)[s].Syntax? ==> s < |now| && now[s] == before[s]
  {
    var k := Fixed(before, s);
    assert before[..s] == before[..k][..s] == now[..k][..s] == now[..s];
    assert forall n :: 0 <= n < s ==> before[n] == before[..s][n] && now[n] == now[..s][n];
    if k > s {
      assert now[s] == now[..k][s] == before[s];
    }
  }

  /** A turn at a text node passes over it, or ends the walk of a greedy pattern that finds nothing more. */
  lemma TurnWalks(pattern: Pattern, name: string, text: string, before: seq<Node>, nodes: seq<Node>, pos: nat,
                  s: nat, c: nat, d: nat, stop: bool)
    requires s <= c < |before| && c <= d < |nodes| && nodes[..c] == before[..c]
    requires var ts := TokensOf(before);
             && ts[c].Text? && pos == Extent(ts[..c]) <= |text| && text != [] && Separated(text, ts)
             && Walked(pattern, name, text, ts, s, c)
             && Turned(name, Answer(pattern, text, ts[c].value, pos), pattern.greedy, before, nodes, c, d, stop)
    ensures if stop then nodes == before && pattern.greedy && AnswerAt(pattern, text, TokensOf(before), c).None?
            else Walked(pattern, name, text, TokensOf(nodes), s, d + 1)
  {
    hide Find, Answer;
    var was, ts := TokensOf(before), TokensOf(nodes);
    assert TokensOf(before[..c]) == was[..c] && TokensOf(nodes[..c]) == ts[..c];
    AnswerLooks(pattern, text, was[c].value, if ts[c].Text? then ts[c].value else [], pos);
    if !stop {
      var next := d + 1;
      forall k | s <= k < next
        ensures PassedOver(pattern, name, text, ts, s, next, k)
      {
        if k < c {
          assert PassedOver(pattern, name, text, was, s, c, k);
          PassedAlike(pattern, name, text, was, ts, s, c, next, k);
        } else if pattern.greedy && k < d {
          assert Leads(pattern, name, text, ts, c, d);
        }
      }
    }
  }

  /** A greedy pattern does not look at the text of the node, another one at nothing else. */
  lemma AnswerLooks(pattern: Pattern, text: string, v: string, w: string, pos: nat)
    requires pos <= |text|
    ensures pattern.greedy ==> Answer(pattern, text, v, pos) == Answer(pattern, text, w, pos)
    ensures !pattern.greedy ==> (Answer(pattern, text, v, pos).None? <==> Find(pattern, v, 0).None?)
  {
  }

  /** What is passed over stays so when only the tokens behind the walk change. */
  lemma PassedAlike(pattern: Pattern, name: string, text: string, was: seq<Token>, ts: seq<Token>,
                    s: nat, c: nat, e: nat, k: nat)
    requires k < c <= |was| && c <= e <= |ts| && was[..c] == ts[..c]
    requires PassedOver(pattern, name, text, was, s, c, k)
    requires k + 1 == c && k + 1 < |was| && was[k].Text? ==> !was[k + 1].Syntax?
    ensures PassedOver(pattern, name, text, ts, s, e, k)
  {
    hide Find, Answer;
    assert ts[k] == ts[..c][k] == was[..c][k] == was[k];
    if ts[k].Text? && pattern.greedy {
      var q, d :| s <= q <= k < d < c && Leads(pattern, name, text, was, q, d);
      assert ts[q] == ts[..c][q] && ts[d] == ts[..c][d];
      assert ts[..q] == ts[..c][..q] == was[..c][..q] == was[..q];
      assert ts[..d] == ts[..c][..d] == was[..c][..d] == was[..d];
      assert Leads(pattern, name, text, ts, q, d);
    } else if k + 1 < c {
      assert ts[k + 1] == ts[..c][k + 1] == was[..c][k + 1] == was[k + 1];
    }
  }

  lemma SyntaxWalks(pattern: Pattern, name: string, text: string, ts: seq<Token>, s: nat, c: nat)
    requires c < |ts| && Walked(pattern, name, text, ts, s, c) && ts[c].Syntax?
    ensures Walked(pattern, name, text, ts, s, c + 1)
  {
    hide Leads, Find;
    var next := c + 1;
    forall k | s <= k < next
      ensures PassedOver(pattern, name, text, ts, s, next, k)
    {
      assert k < c ==> PassedOver(pattern, name, text, ts, s, c, k);
    }
  }

  /** What the walk needs to know at a node. */
  lemma ReadyAt(library: Library, g: nat, text: string, list: TokenList, c: nat, fuel: nat)
    requires Ready(library, g, text, list, fuel) && c < |list.nodes|
    ensures var ts := TokensOf(list.nodes);
            && list.nodes[c].token == Some(ts[c]) && Extent(ts[..c + 1]) == Extent(ts[..c]) + Length(ts[c]) <= |text|
            && (list.nodes[c].next == list.head <==> c + 1 == |list.nodes|)
            && (c + 1 < |list.nodes| ==> list.nodes[c].next == list.nodes[c + 1])
            && list.length == |list.nodes| && list.nodes[c].next != null && (text != [] ==> Separated(text, ts))
  {
    AtNode(list, c);
  }

  lemma KeptVisit(before: seq<Node>, now: seq<Node>, next: seq<Node>, s: nat, c: nat)
    requires s <= |before| && Kept(before, now, s) && s <= c < |now|
    requires next == now || (TokensOf(now)[c].Text? && c <= |next| && next[..c] == now[..c])
    ensures Kept(before, next, s)
  {
    if next != now {
      KeptStep(before, now, next, s, c);
    }
  }

  /**
   A turn of the walk at any node, and the step to the next one. Only a turn at a text node changes the list,
   and it changes nothing in front of that node.
   */
  method Visit(library: Library, text: string, list: TokenList, g: nat, i: nat, x: nat, current: Node, pos: nat,
               rematched: bool, limit: nat, fuel: nat, ghost s: nat, ghost c: nat)
    returns (next: Node, offset: nat, reach: nat, stop: bool, ghost d: nat, ghost applied: set<(nat, nat)>)
    requires Resolved(library) && g < |library| && i < |library[g]| && x < |library[g][i].patterns|
    requires Ready(library, g, text, list, fuel) && text != []
    requires s <= c < |list.nodes| && current == list.nodes[c]
    requires pos == Extent(TokensOf(list.nodes)[..c]) <= |text|
    modifies list, list.head, list.nodes
    ensures Ready(library, g, text, list, fuel) && list.head == old(list.head) && list.length == |list.nodes|
    ensures forall n :: n in list.nodes ==> n in old(list.nodes) || fresh(n)
    ensures list.nodes == old(list.nodes)
         || (old(TokensOf(list.nodes)[c]).Text? && c <= |list.nodes| && list.nodes[..c] == old(list.nodes)[..c])
    ensures c <= |list.nodes| && (stop || c < d <= |list.nodes|) && limit <= reach && Before(applied, i, x)
    ensures var name, pattern := library[g][i].name, library[g][i].patterns[x];
            old(Walked(pattern, name, text, TokensOf(list.nodes), s, c)) ==>
              if stop then pattern.greedy && old(TokensOf(list.nodes))[c].Text? && list.nodes == old(list.nodes)
                           && AnswerAt(pattern, text, old(TokensOf(list.nodes)), c).None?
              else Walked(pattern, name, text, TokensOf(list.nodes), s, d)
    ensures !stop ==> offset == Extent(TokensOf(list.nodes)[..d]) <= |text|
    ensures !stop ==> if d < |list.nodes| then next == list.nodes[d] && next != list.head else next == list.head
    ensures stop || pos < offset || (pos == offset && |list.nodes| > |old(list.nodes)|)
         || (pos == offset && list.nodes == old(list.nodes) && d == c + 1)
    ensures Visited(library[g][i].patterns[x], text, old(list.nodes), list.nodes, c, pos)
    decreases fuel, i, x, 4
  {
    hide TokenList.Valid, Complete, Extent, Resolved, Ring, Ready, Turned, Walked, Answer, AnswerAt, Separated,
         TokensOf, Before, Length, HasSyntax;
    ghost var pattern, name := library[g][i].patterns[x], library[g][i].name;
    ghost var nodes := list.nodes;
    ReadyAt(library, g, text, list, c, fuel);
    NoneApplied(library[g], i, x);
    next, offset, reach, stop, d, applied := current, pos, limit, false, c, {};
    if current.token.value.Text? {
      ghost var e, r;
      next, offset, reach, stop, e, d, r, applied :=
        MatchNode(library, text, list, g, i, x, current, pos, rematched, limit, fuel, c);
      TurnedVisits(pattern, name, text, nodes, list.nodes, pos, c, d, stop);
      if Walked(pattern, name, text, TokensOf(nodes), s, c) {
        TurnWalks(pattern, name, text, nodes, list.nodes, pos, s, c, d, stop);
      }
    } else if Walked(pattern, name, text, TokensOf(nodes), s, c) {
      SyntaxWalks(pattern, name, text, TokensOf(nodes), s, c);
    }
    ReadyAt(library, g, text, list, d, fuel);
    offset := offset + Length(next.token.value);
    next := next.next;
    d := d + 1;
  }

  /**
   The walk of one pattern over the list, from behind the starting point on. Unless it is aborted, it passes
   over every text token up to where the walk of this pattern ends.
   */
  method ApplyPattern(library: Library, text: string, list: TokenList, g: nat, i: nat, x: nat, startNode: Node,
                      startPos: nat, rematched: bool, limit: nat, fuel: nat, ghost s: nat)
    returns (reach: nat, aborted: bool, ghost applied: set<(nat, nat)>, ghost c: nat)
    requires Resolved(library) && g < |library| && i < |library[g]| && x < |library[g][i].patterns|
    requires Ready(library, g, text, list, fuel)
    requires s <= |list.nodes| && startNode == Ring(list.nodes, list.head, s)
    requires startPos == Extent(TokensOf(list.nodes)[..s])
    modifies list, list.head, list.nodes
    ensures Ready(library, g, text, list, fuel) && list.head == old(list.head)
    ensures forall n :: n in list.nodes ==> n in old(list.nodes) || fresh(n)
    ensures Kept(old(list.nodes), list.nodes, s) && limit <= reach
    ensures Before(applied, i, x + 1) && (i, x) in applied && (aborted ==> |list.nodes| == list.length > |text|)
    ensures s <= c <= |list.nodes|
    ensures var ts := TokensOf(list.nodes); var pattern := library[g][i].patterns[x];
            !aborted ==> Walked(pattern, library[g][i].name, text, ts, s, c)
                         && WalkEnds(pattern, text, ts, Upto(rematched, reach), c)
    ensures HasSyntax(TokensOf(old(list.nodes))) ==> HasSyntax(TokensOf(list.nodes))
    ensures s == 0 && !rematched && text != [] ==>
              Outcome(library[g][i].patterns[x], text, old(list.nodes), list.nodes)
    decreases fuel, i, x, 5
  {
    hide TokenList.Valid, Complete, Extent, Resolved, Ring, Kept, Ready, Turned, Walked, Answer, AnswerAt, Separated,
         TokensOf, Before, Length, HasSyntax, Visited, Progress, Outcome;
    reach, aborted, applied := limit, false, {(i, x)};
    var pos := startPos;
    ghost var pattern, name := library[g][i].patterns[x], library[g][i].name;
    c := s;
    ghost var before := list.nodes;
    KeptSelf(before, s);
    BeforeOne(i, x);
    var current := First(library, g, text, list, startNode, s, fuel);
    WalkedNone(pattern, name, text, TokensOf(list.nodes), s);
    ghost var seen := false;
    NoProgress(pattern, text, before);
    while current != list.head
      invariant Ready(library, g, text, list, fuel) && list.head == old(list.head)
      invariant forall k :: 0 <= k < |list.nodes| ==> list.nodes[k] in old(list.nodes) || fresh(list.nodes[k])
      invariant Kept(before, list.nodes, s) && limit <= reach && s <= c <= |list.nodes|
      invariant Before(applied, i, x + 1) && (i, x) in applied
      invariant pos == Extent(TokensOf(list.nodes)[..c]) <= |text| && list.length == |list.nodes|
      invariant if c < |list.nodes| then current == list.nodes[c] && current != list.head else current == list.head
      invariant Walked(pattern, name, text, TokensOf(list.nodes), s, c)
      invariant (seen || c == s) && Progress(pattern, text, before, list.nodes, s, seen)
      decreases |text| - pos, if list.length <= |text| then |text| + 1 - list.length else 0, |list.nodes| - c
    {
      if rematched && pos >= reach {
        break;
      }
      if list.length > |text| {
        aborted := true;
        ProgressEnds(pattern, text, before, list.nodes, s, seen, c);
        ProgressKeeps(pattern, text, before, list.nodes, s, seen);
        return;
      }
      var stop;
      ghost var nodes, d, more, at := list.nodes, c, {}, pos;
      current, pos, reach, stop, d, more :=
        Visit(library, text, list, g, i, x, current, pos, rematched, reach, fuel, s, c);
      BeforeUnion(applied, more, i, x);
      applied := applied + more;
      assert forall k :: 0 <= k < |list.nodes| ==> list.nodes[k] in list.nodes;
      KeptVisit(before, nodes, list.nodes, s, c);
      ProgressStep(pattern, text, before, nodes, list.nodes, s, seen, c, at);
      seen := true;
      if stop {
        break;
      }
      c := d;
    }
    if !rematched {
      ProgressEnds(pattern, text, before, list.nodes, s, seen, c);
    }
    ProgressKeeps(pattern, text, before, list.nodes, s, seen);
  }

  /** There is a syntax token. */
  ghost predicate HasSyntax(ts: seq<Token>) {
    exists k :: 0 <= k < |ts| && ts[k].Syntax?
  }

  /** The whole text is one text token. */
  ghost predicate Unsplit(text: string, nodes: seq<Node>) {
    TokensOf(nodes) == [Text(text)]
  }

  /** What a visit of node c does: without an answer nothing, with one there is a syntax token afterwards. */
  ghost predicate Visited(pattern: Pattern, text: string, before: seq<Node>, nodes: seq<Node>, c: nat, pos: nat)
    requires c < |before| && pos <= |text|
  {
    var t := TokensOf(before)[c];
    if t.Syntax? || Answer(pattern, text, t.value, pos).None? then nodes == before else HasSyntax(TokensOf(nodes))
  }

  /** What a pattern does to a whole text: it splits it if and only if the search has an answer. */
  ghost predicate Outcome(pattern: Pattern, text: string, before: seq<Node>, nodes: seq<Node>) {
    Unsplit(text, before) ==>
      if Answer(pattern, text, text, 0).None? then nodes == before else HasSyntax(TokensOf(nodes))
  }

  ghost predicate Progress(pattern: Pattern, text: string, before: seq<Node>, nodes: seq<Node>, s: nat, seen: bool) {
    && (nodes == before || HasSyntax(TokensOf(nodes)))
    && (s == 0 && Unsplit(text, before) ==>
          if seen then Outcome(pattern, text, before, nodes) else nodes == before)
  }

  lemma NoProgress(pattern: Pattern, text: string, before: seq<Node>)
    ensures forall s :: Progress(pattern, text, before, before, s, false)
  {
  }

  lemma TurnedVisits(pattern: Pattern, name: string, text: string, before: seq<Node>, nodes: seq<Node>, pos: nat,
                     c: nat, d: nat, stop: bool)
    requires c < |before| && c <= d < |nodes| && pos <= |text| && TokensOf(before)[c].Text?
    requires Turned(name, Answer(pattern, text, TokensOf(before)[c].value, pos), pattern.greedy, before, nodes, c, d, stop)
    ensures Visited(pattern, text, before, nodes, c, pos)
  {
    hide Answer;
  }

  lemma ProgressStep(pattern: Pattern, text: string, before: seq<Node>, now: seq<Node>, next: seq<Node>, s: nat,
                     seen: bool, c: nat, pos: nat)
    requires Progress(pattern, text, before, now, s, seen) && c < |now| && pos <= |text|
    requires pos == Extent(TokensOf(now)[..c]) && Visited(pattern, text, now, next, c, pos)
    ensures Progress(pattern, text, before, next, s, true)
  {
    hide Answer;
    assert Unsplit(text, now) ==> !HasSyntax(TokensOf(now));
    if c == 0 {
      assert TokensOf(now)[..c] == [];
    }
  }

  lemma ProgressEnds(pattern: Pattern, text: string, before: seq<Node>, nodes: seq<Node>, s: nat, seen: bool, c: nat)
    requires Progress(pattern, text, before, nodes, s, seen) && (seen || c == s)
    requires c == |nodes| || |nodes| > |text| || seen
    ensures s == 0 && text != [] ==> Outcome(pattern, text, before, nodes)
  {
    hide Answer;
    assert Unsplit(text, before) ==> |before| == 1;
  }

  lemma ProgressKeeps(pattern: Pattern, text: string, before: seq<Node>, nodes: seq<Node>, s: nat, seen: bool)
    requires Progress(pattern, text, before, nodes, s, seen)
    ensures HasSyntax(TokensOf(before)) ==> HasSyntax(TokensOf(nodes))
  {
  }

  lemma WalkedNone(pattern: Pattern, name: string, text: string, ts: seq<Token>, s: nat)
    requires s <= |ts|
    ensures Walked(pattern, name, text, ts, s, s)
  {
  }

  lemma KeptSelf(nodes: seq<Node>, s: nat)
    requires s <= |nodes|
    ensures Kept(nodes, nodes, s)
  {
  }

  /** The node behind the starting point of a walk. */
  method First(library: Library, g: nat, text: string, list: TokenList, startNode: Node,
               ghost s: nat, ghost fuel: nat) returns (node: Node)
    requires Ready(library, g, text, list, fuel) && s <= |list.nodes| && startNode == Ring(list.nodes, list.head, s)
    ensures if s < |list.nodes| then node == list.nodes[s] && node != list.head else node == list.head
    ensures Extent(TokensOf(list.nodes)[..s]) <= |text| && list.length == |list.nodes|
  {
    list.NextOf(s);
    list.EntryAt(s);
    node := startNode.next;
    ExtentMonotone(TokensOf(list.nodes), s, s);
  }

  /** Every pattern in the set comes before pattern j of grammar token t. */
  ghost predicate Before(applied: set<(nat, nat)>, t: nat, j: nat) {
    forall p :: p in applied ==> p.0 < t || (p.0 == t && p.1 < j)
  }

  lemma BeforeUnion(a: set<(nat, nat)>, b: set<(nat, nat)>, t: nat, j: nat)
    requires Before(a, t, j + 1) && Before(b, t, j)
    ensures Before(a + b, t, j + 1)
  {
  }

  lemma BeforeOne(t: nat, j: nat)
    ensures Before({(t, j)}, t, j + 1)
  {
  }

  /** A rematch from the node in front of a new token. The token stays, and only earlier patterns are applied. */
  method MatchAgain(library: Library, text: string, list: TokenList, g: nat, i: nat, x: nat, node: Node, offset: nat,
                    end: nat, fuel: nat, ghost d: nat) returns (reach: nat, ghost applied: set<(nat, nat)>)
    requires Resolved(library) && g < |library| && i < |library[g]| && x < |library[g][i].patterns|
    requires Ready(library, g, text, list, fuel)
    requires d < |list.nodes| && node == list.nodes[d] && TokensOf(list.nodes)[d].Syntax?
    requires offset == Extent(TokensOf(list.nodes)[..d])
    modifies list, list.head, list.nodes
    ensures Ready(library, g, text, list, fuel) && list.head == old(list.head)
    ensures forall n :: n in list.nodes ==> n in old(list.nodes) || fresh(n)
    ensures d < |list.nodes| && node == list.nodes[d] && list.nodes[..d] == old(list.nodes)[..d]
    ensures offset == Extent(TokensOf(list.nodes)[..d]) && end <= reach && Before(applied, i, x)
    ensures |list.nodes| > |text| || Rematched(library[g], text, TokensOf(list.nodes), applied, reach, d, i, x)
    decreases fuel, i, x, 1
  {
    hide TokenList.Valid, Complete, Extent, Resolved, Ring, Kept;
    ghost var before := list.nodes;
    list.PrevOf(d);
    AtNode(list, d);
    ghost var aborted;
    reach, applied, aborted := MatchGrammar(library, text, list, g, node.prev, offset,
                                   Some(Rematch(library[g][i].name, end, x)), fuel, d, i, x);
    KeptStart(before, list.nodes, list.head, d);
  }

  /** Every pattern of the grammar that comes before pattern j of grammar token t is in the set. */
  ghost predicate Covers(grammar: Grammar, applied: set<(nat, nat)>, t: nat, j: nat) {
    forall i: nat, x: nat :: i < |grammar| && x < |grammar[i].patterns| && (i < t || (i == t && x < j)) ==> (i, x) in applied
  }

  /** An earlier token of the same name has a pattern of that number, so that a rematch ends there. */
  ghost predicate EndsEarlier(grammar: Grammar, t: nat, j: nat)
    requires t < |grammar|
  {
    exists a :: 0 <= a < t && SamePlace(grammar, a, t, j)
  }

  ghost predicate SamePlace(grammar: Grammar, a: nat, t: nat, j: nat)
    requires a < |grammar| && t < |grammar|
  {
    grammar[a].name == grammar[t].name && j < |grammar[a].patterns|
  }

  /** The first token at which a rematch for pattern j of token t ends. */
  ghost predicate FirstPlace(grammar: Grammar, a: nat, t: nat, j: nat)
    requires a <= t < |grammar|
  {
    SamePlace(grammar, a, t, j) && forall b :: 0 <= b < a ==> !SamePlace(grammar, b, t, j)
  }

  /**
   What a rematch from token s on has done: every pattern in front of the place where it ends is applied, and
   the last of them has walked as far as the reach.
   */
  ghost predicate Rematched(grammar: Grammar, text: string, ts: seq<Token>, applied: set<(nat, nat)>, reach: nat,
                            s: nat, t: nat, j: nat)
  {
    && t < |grammar|
    && exists a: nat :: a <= t && FirstPlace(grammar, a, t, j) && Covers(grammar, applied, a, j)
                        && LastSearched(grammar, text, ts, Some(reach), s, a, j)
  }

  /** With two tokens of one name, a rematch for the second leaves the first one out. */
  lemma RepeatedName(pattern: Pattern, applied: set<(nat, nat)>)
    ensures var grammar := [GrammarToken("keyword", [pattern]), GrammarToken("keyword", [pattern])];
            EndsEarlier(grammar, 1, 0) && (Before(applied, 0, 0) ==> !Covers(grammar, applied, 1, 0))
  {
    var grammar := [GrammarToken("keyword", [pattern]), GrammarToken("keyword", [pattern])];
    assert SamePlace(grammar, 0, 1, 0);
    if Before(applied, 0, 0) {
      assert (0, 0) !in applied;
      assert |grammar[0].patterns| == 1;
    }
  }

  /** A walk that ends at token a has not covered what comes before a later one. */
  lemma EndedEarlier(grammar: Grammar, applied: set<(nat, nat)>, a: nat, t: nat, j: nat)
    requires a < t < |grammar| && SamePlace(grammar, a, t, j) && Before(applied, a, j)
    ensures EndsEarlier(grammar, t, j) && !Covers(grammar, applied, t, j)
  {
    assert (a, j) !in applied;
  }

  /** The whole text is split as soon as one pattern has an answer. */
  ghost predicate SplitSoFar(grammar: Grammar, text: string, before: seq<Node>, nodes: seq<Node>, t: nat, j: nat) {
    Unsplit(text, before) ==>
      if NothingMatches(grammar, text, t, j) then nodes == before else HasSyntax(TokensOf(nodes))
  }

  lemma NothingSplit(grammar: Grammar, text: string, before: seq<Node>)
    ensures SplitSoFar(grammar, text, before, before, 0, 0)
  {
    hide Answer;
  }

  lemma SplitNext(grammar: Grammar, text: string, before: seq<Node>, now: seq<Node>, next: seq<Node>, i: nat, x: nat)
    requires i < |grammar| && x < |grammar[i].patterns| && SplitSoFar(grammar, text, before, now, i, x)
    requires Outcome(grammar[i].patterns[x], text, now, next)
    requires HasSyntax(TokensOf(now)) ==> HasSyntax(TokensOf(next))
    ensures SplitSoFar(grammar, text, before, next, i, x + 1)
  {
    hide Answer, HasSyntax;
    if NothingMatches(grammar, text, i, x + 1) {
      assert NothingMatches(grammar, text, i, x);
    } else if NothingMatches(grammar, text, i, x) && Unsplit(text, before) {
      assert Answer(grammar[i].patterns[x], text, text, 0).Some?;
    }
  }

  lemma SplitToken(grammar: Grammar, text: string, before: seq<Node>, nodes: seq<Node>, i: nat)
    requires i < |grammar| && SplitSoFar(grammar, text, before, nodes, i, |grammar[i].patterns|)
    ensures SplitSoFar(grammar, text, before, nodes, i + 1, 0)
  {
    hide Answer, HasSyntax;
    assert NothingMatches(grammar, text, i, |grammar[i].patterns|) <==> NothingMatches(grammar, text, i + 1, 0);
  }

  /** What is split stays split when the walk is given up. */
  lemma SplitEarly(grammar: Grammar, text: string, before: seq<Node>, nodes: seq<Node>, i: nat, x: nat, t: nat, j: nat)
    requires SplitSoFar(grammar, text, before, nodes, i, x) && (i < t || (i == t && x <= j))
    requires |nodes| > |text| && text != []
    ensures SplitSoFar(grammar, text, before, nodes, t, j)
  {
    hide Answer, HasSyntax;
    if Unsplit(text, before) {
      assert |TokensOf(before)| == 1;
      assert NothingMatches(grammar, text, t, j) ==> NothingMatches(grammar, text, i, x);
    }
  }

  lemma NoneSearched(grammar: Grammar, text: string, ts: seq<Token>, horizon: Horizon, s: nat)
    ensures LastSearched(grammar, text, ts, horizon, s, 0, 0)
  {
  }

  lemma LastNext(grammar: Grammar, text: string, ts: seq<Token>, horizon: Horizon, s: nat, i: nat, x: nat, c: nat)
    requires i < |grammar| && x < |grammar[i].patterns| && s <= c <= |ts|
    requires Walked(grammar[i].patterns[x], grammar[i].name, text, ts, s, c)
    requires WalkEnds(grammar[i].patterns[x], text, ts, horizon, c)
    ensures LastSearched(grammar, text, ts, horizon, s, i, x + 1)
  {
    hide Walked, WalkEnds;
    assert InFront(grammar, i, x, i, x + 1);
  }

  lemma LastToken(grammar: Grammar, text: string, ts: seq<Token>, horizon: Horizon, s: nat, i: nat)
    requires i < |grammar| && LastSearched(grammar, text, ts, horizon, s, i, |grammar[i].patterns|)
    ensures LastSearched(grammar, text, ts, horizon, s, i + 1, 0)
  {
    hide Searched;
    var n := |grammar[i].patterns|;
    assert forall a: nat, y: nat :: InFront(grammar, a, y, i + 1, 0) <==> InFront(grammar, a, y, i, n);
    assert forall a: nat, y: nat :: IsLast(grammar, a, y, i + 1, 0) ==> IsLast(grammar, a, y, i, n);
  }

  lemma BeforeJoin(a: set<(nat, nat)>, b: set<(nat, nat)>, i: nat, x: nat)
    requires Before(a, i, x) && Before(b, i, x + 1)
    ensures Before(a + b, i, x + 1)
  {
  }

  lemma BeforeLater(a: set<(nat, nat)>, i: nat, x: nat, t: nat, j: nat)
    requires Before(a, i, x) && (i < t || (i == t && x <= j))
    ensures Before(a, t, j)
  {
  }

  lemma CoversNext(grammar: Grammar, a: set<(nat, nat)>, b: set<(nat, nat)>, i: nat, x: nat)
    requires Covers(grammar, a, i, x) && (i, x) in b
    ensures Covers(grammar, a + b, i, x + 1)
  {
  }

  lemma CoversToken(grammar: Grammar, a: set<(nat, nat)>, i: nat)
    requires i < |grammar| && Covers(grammar, a, i, |grammar[i].patterns|)
    ensures Covers(grammar, a, i + 1, 0)
  {
  }

  /**
   All patterns of a grammar in their order; a rematch ends at the first pattern with the name and number
   of the one that caused it. Token t and number j are a place where it ends at the latest: only patterns
   before it are applied, here and in all rematches. Unless the list got too long, all of them are, except
   that a rematch ends earlier if and only if an earlier token has the same name and a pattern of that number.
   */
  method MatchGrammar(library: Library, text: string, list: TokenList, g: nat, startNode: Node, startPos: nat,
                      rematch: Option<Rematch>, fuel: nat, ghost s: nat, ghost t: nat, ghost j: nat)
    returns (reach: nat, ghost applied: set<(nat, nat)>, ghost aborted: bool)
    requires Resolved(library) && g < |library|
    requires Ready(library, g, text, list, fuel)
    requires s <= |list.nodes| && startNode == Ring(list.nodes, list.head, s)
    requires startPos == Extent(TokensOf(list.nodes)[..s])
    requires Limit(library[g], rematch, t, j)
    modifies list, list.head, list.nodes
    ensures Ready(library, g, text, list, fuel) && list.head == old(list.head)
    ensures forall n :: n in list.nodes ==> n in old(list.nodes) || fresh(n)
    ensures Kept(old(list.nodes), list.nodes, s) && Before(applied, t, j)
    ensures if aborted then |list.nodes| == list.length > |text|
            else Covers(library[g], applied, t, j) <==> rematch.None? || !EndsEarlier(library[g], t, j)
    ensures rematch.Some? ==> rematch.value.reach <= reach
    ensures rematch.None? && s == 0 && text != [] ==> SplitSoFar(library[g], text, old(list.nodes), list.nodes, t, j)
    ensures !aborted ==> if rematch.None? then LastSearched(library[g], text, TokensOf(list.nodes), None, s, t, j)
                         else Rematched(library[g], text, TokensOf(list.nodes), applied, reach, s, t, j)
    decreases fuel, t, j, 0
  {
    hide TokenList.Valid, Complete, Extent, Resolved, Ring, Kept, Ready, Before, Covers, TokensOf, EndsEarlier, SplitSoFar,
         LastSearched, HasSyntax, Outcome, Walked, WalkEnds;
    reach, applied, aborted := if rematch.Some? then rematch.value.reach else 0, {}, false;
    ghost var before := list.nodes;
    KeptSelf(before, s);
    NoneApplied(library[g], 0, 0);
    NothingSplit(library[g], text, before);
    NoneSearched(library[g], text, TokensOf(before), Upto(rematch.Some?, reach), s);
    ghost var whole := rematch.None? && s == 0 && text != [];
    var i := 0;
    while i < |library[g]|
      invariant i <= |library[g]| && i <= t
      invariant Ready(library, g, text, list, fuel) && list.head == old(list.head)
      invariant forall k :: 0 <= k < |list.nodes| ==> list.nodes[k] in old(list.nodes) || fresh(list.nodes[k])
      invariant Kept(before, list.nodes, s) && Before(applied, i, 0) && (rematch.Some? ==> rematch.value.reach <= reach)
      invariant Covers(library[g], applied, i, 0) && !aborted
      invariant rematch.Some? ==> forall a :: 0 <= a < i ==> !SamePlace(library[g], a, t, j)
      invariant whole ==> SplitSoFar(library[g], text, before, list.nodes, i, 0)
      invariant LastSearched(library[g], text, TokensOf(list.nodes), Upto(rematch.Some?, reach), s, i, 0)
    {
      var x := 0;
      while x < |library[g][i].patterns|
        invariant x <= |library[g][i].patterns| && (i == t ==> x <= j)
        invariant Ready(library, g, text, list, fuel) && list.head == old(list.head)
        invariant forall k :: 0 <= k < |list.nodes| ==> list.nodes[k] in old(list.nodes) || fresh(list.nodes[k])
        invariant Kept(before, list.nodes, s) && Before(applied, i, x) && (rematch.Some? ==> rematch.value.reach <= reach)
        invariant Covers(library[g], applied, i, x) && !aborted
        invariant rematch.Some? && SamePlace(library[g], i, t, j) ==> x <= j
        invariant whole ==> SplitSoFar(library[g], text, before, list.nodes, i, x)
        invariant LastSearched(library[g], text, TokensOf(list.nodes), Upto(rematch.Some?, reach), s, i, x)
      {
        BeforeLater(applied, i, x, t, j);
        if rematch.Some? && rematch.value.j == x && rematch.value.token == library[g][i].name {
          RematchEnds(library[g], applied, i, t, j);
          assert FirstPlace(library[g], i, t, j);
          return;
        }
        ghost var nodes, more, c := list.nodes, {}, 0;
        KeptStart(before, nodes, list.head, s);
        var abort;
        reach, abort, more, c :=
          ApplyPattern(library, text, list, g, i, x, startNode, startPos, rematch.Some?, reach, fuel, s);
        assert forall k :: 0 <= k < |list.nodes| ==> list.nodes[k] in list.nodes;
        KeptTrans(before, nodes, list.nodes, s);
        BeforeJoin(applied, more, i, x);
        CoversNext(library[g], applied, more, i, x);
        applied := applied + more;
        BeforeLater(applied, i, x + 1, t, j);
        if whole {
          SplitNext(library[g], text, before, nodes, list.nodes, i, x);
        }
        if abort {
          aborted := true;
          if whole {
            SplitEarly(library[g], text, before, list.nodes, i, x + 1, t, j);
          }
          return;
        }
        LastNext(library[g], text, TokensOf(list.nodes), Upto(rematch.Some?, reach), s, i, x, c);
        x := x + 1;
      }
      CoversToken(library[g], applied, i);
      BeforeLater(applied, i, x, i + 1, 0);
      if whole {
        SplitToken(library[g], text, before, list.nodes, i);
      }
      LastToken(library[g], text, TokensOf(list.nodes), Upto(rematch.Some?, reach), s, i);
      i := i + 1;
    }
    BeforeLater(applied, i, 0, t, j);
  }

  /** Where a walk over the patterns ends at the latest: a rematch at the pattern that caused it. */
  ghost predicate Limit(grammar: Grammar, rematch: Option<Rematch>, t: nat, j: nat) {
    if rematch.None? then t == |grammar| && j == 0
    else t < |grammar| && SamePlace(grammar, t, t, j) && grammar[t].name == rematch.value.token && j == rematch.value.j
  }

  /** A rematch ends at token i: whether that is earlier than it had to. */
  lemma RematchEnds(grammar: Grammar, applied: set<(nat, nat)>, i: nat, t: nat, j: nat)
    requires i <= t < |grammar| && SamePlace(grammar, i, t, j) && Before(applied, i, j) && Covers(grammar, applied, i, j)
    requires forall a :: 0 <= a < i ==> !SamePlace(grammar, a, t, j)
    ensures Covers(grammar, applied, t, j) <==> !EndsEarlier(grammar, t, j)
  {
    if i < t {
      EndedEarlier(grammar, applied, i, t, j);
    }
  }

  lemma NoneApplied(grammar: Grammar, t: nat, j: nat)
    ensures Before({}, t, j) && Covers(grammar, {}, 0, 0)
  {
  }

  /** An unknown language makes one text token. */
  method Highlight(library: Library, languages: map<string, nat>, text: string, language: string, fuel: nat)
    returns (tokens: seq<Token>)
    requires Resolved(library) && (forall name :: name in languages ==> languages[name] < |library|)
    ensures FlattenAll(tokens) == text && AllSound(tokens)
    ensures if language in languages then Tokenized(library, languages[language], text, tokens, fuel)
            else tokens == [Text(text)]
  {
    if language in languages {
      tokens := Tokenize(library, text, languages[language], fuel);
      CompleteFlattens(library, languages[language], text, tokens, fuel);
    } else {
      tokens := [Text(text)];
      assert Sound(tokens[0]) && tokens[1..] == [];
    }
  }
}
