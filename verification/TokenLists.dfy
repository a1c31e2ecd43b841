/** The token list of libprisma: a circular doubly linked list with a sentinel, and the tokens in it. */
module TokenLists {
  import opened Sequences

  /** A token; the children of a syntax token are the contents of the list that was moved into it. */
  datatype Token = Text(value: string) | Syntax(kind: string, children: seq<Token>, alias: string, size: nat)

  /** length(): the characters a token covers. */
  function Length(t: Token): nat {
    if t.Text? then |t.value| else t.size
  }

  /** The text under a token. */
  function Flatten(t: Token): string
    decreases t
  {
    if t.Text? then t.value else FlattenAll(t.children)
  }

  function FlattenAll(ts: seq<Token>): string
    decreases ts
  {
    if ts == [] then [] else Flatten(ts[0]) + FlattenAll(ts[1..])
  }

  /** Every syntax token, at every depth, knows the length of its text. */
  predicate Sound(t: Token)
    decreases t
  {
    t.Syntax? ==> t.size == |FlattenAll(t.children)| && AllSound(t.children)
  }

  predicate AllSound(ts: seq<Token>)
    decreases ts
  {
    ts == [] || (Sound(ts[0]) && AllSound(ts[1..]))
  }

  function InsertAt<T>(s: seq<T>, i: nat, x: T): (r: seq<T>)
    requires i <= |s|
    ensures |r| == |s| + 1 && r[i] == x
    ensures forall k :: 0 <= k < |r| && k != i ==> r[k] == s[if k < i then k else k - 1]
  {
    s[..i] + [x] + s[i..]
  }

  function RemoveAt<T>(s: seq<T>, i: nat): (r: seq<T>)
    requires i < |s|
    ensures |r| == |s| - 1
    ensures forall k :: 0 <= k < |r| ==> r[k] == s[if k < i then k else k + 1]
  {
    s[..i] + s[i + 1..]
  }

  lemma DistinctFrom<T>(s: seq<T>, i: nat)
    requires Distinct(s) && i < |s|
    ensures forall k :: 0 <= k < |s| && k != i ==> s[k] != s[i]
  {
  }

  lemma InsertDistinct<T>(s: seq<T>, i: nat, x: T)
    requires Distinct(s) && i <= |s| && x !in s
    ensures Distinct(InsertAt(s, i, x))
  {
    hide InsertAt;
  }

  lemma RemoveDistinct<T>(s: seq<T>, i: nat)
    requires Distinct(s) && i < |s|
    ensures Distinct(RemoveAt(s, i))
  {
    hide RemoveAt;
  }

  datatype Option<T> = None | Some(value: T)

  class Node {
    var prev: Node?
    var next: Node?
    const token: Option<Token>   // none in the sentinel

    constructor (prev: Node?, next: Node?, token: Option<Token>)
      ensures this.prev == prev && this.next == next && this.token == token
    {
      this.prev, this.next, this.token := prev, next, token;
    }
  }

  /** The neighbours of node k in a ring that starts with the sentinel. */
  ghost function After(nodes: seq<Node>, head: Node, k: nat): Node {
    if k + 1 < |nodes| then nodes[k + 1] else head
  }

  ghost function Before(nodes: seq<Node>, head: Node, k: nat): Node
    requires k <= |nodes|
  {
    if k > 0 then nodes[k - 1] else head
  }

  /** Entry 0 of the ring is the sentinel, and the ring closes behind the last node. */
  ghost function Ring(nodes: seq<Node>, head: Node, i: nat): Node
    requires i <= |nodes| + 1
  {
    if i == 0 || i == |nodes| + 1 then head else nodes[i - 1]
  }

  lemma InsertLinks(s: seq<Node>, head: Node, i: nat, x: Node)
    requires i <= |s|
    ensures var r := InsertAt(s, i, x);
            && (forall k :: 0 <= k < |r| && k + 1 != i && k != i ==> After(r, head, k) == After(s, head, if k < i then k else k - 1))
            && (forall k :: 0 <= k < |r| && k != i && k != i + 1 ==> Before(r, head, k) == Before(s, head, if k < i then k else k - 1))
            && After(r, head, i) == Ring(s, head, i + 1) && Before(r, head, i) == Ring(s, head, i)
            && (i > 0 ==> After(r, head, i - 1) == x) && (i < |s| ==> Before(r, head, i + 1) == x)
            && Ring(r, head, |r|) == (if i == |s| then x else Ring(s, head, |s|))
            && Ring(r, head, 1) == (if i == 0 then x else Ring(s, head, 1))
  {
    hide InsertAt;
  }

  lemma RemoveLinks(s: seq<Node>, head: Node, i: nat)
    requires i < |s|
    ensures var r := RemoveAt(s, i);
            && (forall k :: 0 <= k < |r| && k + 1 != i ==> After(r, head, k) == After(s, head, if k < i then k else k + 1))
            && (forall k :: 0 <= k < |r| && k != i ==> Before(r, head, k) == Before(s, head, if k < i then k else k + 1))
            && (i > 0 ==> After(r, head, i - 1) == After(s, head, i)) && (i < |r| ==> Before(r, head, i) == Ring(s, head, i))
            && Ring(r, head, |r|) == (if i == |r| then Ring(s, head, i) else Ring(s, head, |s|))
            && Ring(r, head, 1) == (if i == 0 then After(s, head, 0) else Ring(s, head, 1))
  {
    hide RemoveAt;
  }

  class TokenList {
    var head: Node
    var length: nat
    ghost var nodes: seq<Node>   // from the sentinel on, the sentinel itself not included

    /**
     Every node links to the next one and back; the sentinel's back link is null until something is
     done at the end of the list.
     */
    ghost predicate Valid()
      reads this, head, nodes
    {
      && length == |nodes| && head !in nodes && Distinct(nodes)
      && head.token.None? && (forall i :: 0 <= i < |nodes| ==> nodes[i].token.Some?)
      && head.next == Ring(nodes, head, 1) && (head.prev == null || head.prev == Ring(nodes, head, |nodes|))
      && (forall i :: 0 <= i < |nodes| ==> nodes[i].next == After(nodes, head, i))
      && (forall i :: 0 <= i < |nodes| ==> nodes[i].prev == Before(nodes, head, i))
    }

    /** A list with one text token. The sentinel's back link is not set. */
    constructor (value: string)
      ensures Valid() && fresh(head) && fresh(nodes)
      ensures TokensOf(nodes) == [Text(value)] && head.prev == null
    {
      var sentinel := new Node(null, null, None);
      var node := new Node(sentinel, sentinel, Some(Text(value)));
      head, length, nodes := sentinel, 1, [node];
      new;
      sentinel.next := node;
    }

    lemma NextOf(i: nat)
      requires Valid() && i <= |nodes|
      ensures Ring(nodes, head, i).next == Ring(nodes, head, i + 1)
    {
      assert i > 0 ==> nodes[i - 1].next == After(nodes, head, i - 1);
    }

    lemma PrevOf(i: nat)
      requires Valid() && i < |nodes|
      ensures nodes[i].prev == Ring(nodes, head, i)
    {
      assert nodes[i].prev == Before(nodes, head, i);
    }

    /** The sentinel is behind the last entry and nowhere else; every other entry holds a token. */
    lemma EntryAt(i: nat)
      requires Valid() && i <= |nodes|
      ensures Ring(nodes, head, i + 1) == head <==> i == |nodes|
      ensures i < |nodes| ==> nodes[i].token == Some(TokensOf(nodes)[i])
    {
      assert i < |nodes| ==> nodes[i] in nodes;
    }

    /** The nodes beside a gap are different from all others. */
    lemma Apart(i: nat)
      requires Valid() && i <= |nodes|
      ensures forall k :: 0 <= k < |nodes| && k + 1 != i ==> nodes[k] != Ring(nodes, head, i)
      ensures forall k :: 0 <= k < |nodes| && k != i ==> nodes[k] != Ring(nodes, head, i + 1)
    {
      if i > 0 {
        DistinctFrom(nodes, i - 1);
      }
      if i < |nodes| {
        DistinctFrom(nodes, i);
      }
    }

    /** addAfter: a new node behind entry i of the ring. */
    method AddAfter(node: Node, token: Token, ghost i: nat) returns (added: Node)
      requires Valid() && i <= |nodes| && node == Ring(nodes, head, i)
      modifies this, node, Ring(nodes, head, i + 1)
      ensures Valid() && fresh(added) && head == old(head)
      ensures nodes == InsertAt(old(nodes), i, added) && added.token == Some(token)
      ensures head.prev == if i == |old(nodes)| then added else old(head.prev)
    {
      hide InsertAt, Distinct, After, Before;
      ghost var before := nodes;
      NextOf(i);
      Apart(i);
      var next := node.next;
      added := new Node(node, next, Some(token));
      InsertLinks(before, head, i, added);
      InsertDistinct(before, i, added);
      node.next := added;
      next.prev := added;
      length := length + 1;
      nodes := InsertAt(before, i, added);
    }

    /** One turn of removeRange: unlinks the node behind entry i. */
    method RemoveNext(node: Node, ghost i: nat)
      requires Valid() && i < |nodes| && node == Ring(nodes, head, i)
      modifies this, node, After(nodes, head, i)
      ensures Valid() && head == old(head) && nodes == RemoveAt(old(nodes), i)
      ensures head.prev == if i + 1 == |old(nodes)| then node else old(head.prev)
    {
      hide RemoveAt, Distinct, After, Before;
      ghost var before := nodes;
      NextOf(i);
      NextOf(i + 1);
      Apart(i);
      Apart(i + 1);
      var item := node.next;
      RemoveLinks(before, head, i);
      RemoveDistinct(before, i);
      var next := item.next;
      node.next := next;
      next.prev := node;
      length := length - 1;
      nodes := RemoveAt(before, i);
    }

    /** removeRange: unlinks count nodes behind entry i; it never meets a null link or the sentinel. */
    method RemoveRange(node: Node, count: nat, ghost i: nat)
      requires Valid() && i + count <= |nodes| && node == Ring(nodes, head, i)
      modifies this, head, nodes
      ensures Valid() && head == old(head) && nodes == old(nodes)[..i] + old(nodes)[i + count..]
      ensures head.prev == if 0 < count && i + count == |old(nodes)| then node else old(head.prev)
    {
      hide RemoveAt, Distinct, TokenList.Valid, Ring, After;
      ghost var before := nodes;
      NextOf(i);
      SliceRing(before, head, i, 0);
      var item := node.next;
      var k := 0;
      while k < count && item != null
        invariant k <= count && Valid() && head == old(head) && i + count - k <= |nodes|
        invariant node == Ring(nodes, head, i) && item == node.next && item == Ring(nodes, head, i + 1)
        invariant nodes == before[..i] + before[i + k..]
        invariant head.prev == if 0 < k && i + k == |before| then node else old(head.prev)
      {
        RemoveSlice(before, i, k);
        SliceRing(before, head, i, k);
        SliceRing(before, head, i, k + 1);
        RemoveNext(node, i);
        NextOf(i);
        item := node.next;
        k := k + 1;
      }
    }

    /** The walk from begin() to end(). */
    method Contents() returns (tokens: seq<Token>)
      requires Valid()
      ensures tokens == TokensOf(nodes)
    {
      hide Distinct, TokenList.Valid;
      tokens := [];
      NextOf(0);
      EntryAt(0);
      var node := head.next;
      ghost var i := 0;
      while node != head
        invariant i <= |nodes| && node == Ring(nodes, head, i + 1) && (node == head <==> i == |nodes|)
        invariant i < |nodes| ==> node.token == Some(TokensOf(nodes)[i])
        invariant tokens == TokensOf(nodes)[..i]
        decreases |nodes| - i
      {
        tokens := tokens + [node.token.value];
        NextOf(i + 1);
        EntryAt(i + 1);
        node := node.next;
        i := i + 1;
      }
    }
  }

  /** The entries around a slice taken out at entry i. */
  lemma SliceRing(s: seq<Node>, head: Node, i: nat, k: nat)
    requires i + k <= |s|
    ensures var r := s[..i] + s[i + k..];
            && Ring(r, head, i) == Ring(s, head, i) 
            && (Ring(s, head, i) == head || Ring(s, head, i) in s)
            && (i < |r| ==> After(r, head, i) == head || After(r, head, i) in s)
  {
    var r := s[..i] + s[i + k..];
    assert i + 1 < |r| ==> r[i + 1] == s[i + 1 + k];
    assert i > 0 ==> r[i - 1] == s[i - 1];
  }

  lemma RemoveSlice<T>(s: seq<T>, i: nat, k: nat)
    requires i + k < |s|
    ensures RemoveAt(s[..i] + s[i + k..], i) == s[..i] + s[i + k + 1..]
  {
  }

  ghost function TokensOf(nodes: seq<Node>): (ts: seq<Token>)
    ensures |ts| == |nodes|
  {
    seq(|nodes|, i requires 0 <= i < |nodes| => if nodes[i].token.Some? then nodes[i].token.value else Text([]))
  }
}
