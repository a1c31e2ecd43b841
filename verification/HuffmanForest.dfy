/**
 The forest that jpeg_gen_optimal_table keeps in codesize[] and others[]: every tree is a chain of
 symbols hanging off its root, and only roots have a nonzero count.
 */
module HuffmanForest {
  import opened Sequences
  import opened Powers
  import opened HuffmanOptimality

  /** `others` links the members of g in order and ends behind the last. */
  ghost predicate Chain(others: seq<int>, g: seq<nat>) {
    && g != []
    && (forall j :: 0 <= j < |g| ==> g[j] < |others|)
    && (forall j :: 0 <= j < |g| - 1 ==> others[g[j]] == g[j + 1])
    && others[g[|g| - 1]] < 0
  }

  /** Adding up `f` over the members of g. */
  ghost function Over(f: seq<nat>, g: seq<nat>): nat
    requires forall j :: 0 <= j < |g| ==> g[j] < |f|
  {
    if g == [] then 0 else Over(f, g[..|g| - 1]) + f[g[|g| - 1]]
  }

  lemma {:induction false} OverConcat(f: seq<nat>, g: seq<nat>, h: seq<nat>)
    requires forall j :: 0 <= j < |g| ==> g[j] < |f|
    requires forall j :: 0 <= j < |h| ==> h[j] < |f|
    ensures forall j :: 0 <= j < |g + h| ==> (g + h)[j] < |f|
    ensures Over(f, g + h) == Over(f, g) + Over(f, h)
  {
    if h == [] {
      assert g + h == g;
    } else {
      OverConcat(f, g, h[..|h| - 1]);
      assert (g + h)[..|g + h| - 1] == g + h[..|h| - 1];
    }
  }

  lemma {:induction false} OverAgree(f: seq<nat>, e: seq<nat>, g: seq<nat>)
    requires |e| == |f| && forall j :: 0 <= j < |g| ==> g[j] < |f| && e[g[j]] == f[g[j]]
    ensures Over(e, g) == Over(f, g)
  {
    if g != [] {
      OverAgree(f, e, g[..|g| - 1]);
    }
  }

  /** All members of g one level further down. */
  ghost function Deeper(size: seq<nat>, g: seq<nat>): (s: seq<nat>)
    ensures |s| == |size|
  {
    seq(|size|, i requires 0 <= i < |size| => if i in g then size[i] + 1 else size[i])
  }

  lemma DeeperStep(size: seq<nat>, g: seq<nat>, j: nat)
    requires j < |g| && Distinct(g) && forall i :: 0 <= i < |g| ==> g[i] < |size|
    ensures Deeper(size, g[..j])[g[j]] == size[g[j]]
    ensures Deeper(size, g[..j + 1]) == Deeper(size, g[..j])[g[j] := size[g[j]] + 1]
  {
    assert g[..j + 1] == g[..j] + [g[j]];
  }

  /** Moving a tree one level down costs one bit for each occurrence of its symbols. */
  lemma {:induction false} DeeperCost(freq: seq<nat>, size: seq<nat>, g: seq<nat>, j: nat)
    requires |freq| == |size| && j <= |g| && Distinct(g) && forall i :: 0 <= i < |g| ==> g[i] < |size|
    ensures Cost(freq, Deeper(size, g[..j])) == Cost(freq, size) + Over(freq, g[..j])
  {
    hide Cost;
    if j == 0 {
      assert Deeper(size, g[..0]) == size;
    } else {
      DeeperCost(freq, size, g, j - 1);
      DeeperStep(size, g, j - 1);
      var c, before := g[j - 1], Deeper(size, g[..j - 1]);
      CostUpdate(freq, before, c, freq[c], size[c] + 1);
      assert freq[c := freq[c]] == freq;
      assert g[..j][..j - 1] == g[..j - 1];
      assert freq[c] * (size[c] + 1) == freq[c] * size[c] + freq[c];
    }
  }

  /** 2^(k - size) for each symbol. */
  ghost function Shares(size: seq<nat>, k: nat): (s: seq<nat>)
    ensures |s| == |size|
  {
    seq(|size|, i requires 0 <= i < |size| => if size[i] <= k then Pow2(k - size[i]) else 0)
  }

  /** Moving a tree one level down halves the share of the code space it takes. */
  lemma {:induction false} DeeperShares(size: seq<nat>, g: seq<nat>, h: seq<nat>, k: nat)
    requires forall i :: 0 <= i < |g| ==> g[i] < |size| && size[g[i]] < k && g[i] in h
    ensures 2 * Over(Shares(Deeper(size, h), k), g) == Over(Shares(size, k), g)
  {
    if g != [] {
      var c := g[|g| - 1];
      DeeperShares(size, g[..|g| - 1], h, k);
      assert Pow2(k - size[c]) == 2 * Pow2(k - size[c] - 1);
    }
  }

  const SYMBOLS := 257

  /** The symbols in use. */
  ghost predicate Covers(orig: seq<nat>, groups: seq<seq<nat>>) {
    && (forall r, a :: 0 <= r < |groups| && 0 <= a < |groups[r]| ==> groups[r][a] < |orig| && orig[groups[r][a]] != 0)
    && (forall s :: 0 <= s < |orig| && orig[s] != 0 ==> exists r :: 0 <= r < |groups| && s in groups[r])
  }

  ghost predicate Disjoint(groups: seq<seq<nat>>) {
    && (forall r :: 0 <= r < |groups| ==> Distinct(groups[r]))
    && (forall r, q, a, b :: 0 <= r < q < |groups| && 0 <= a < |groups[r]| && 0 <= b < |groups[q]| ==>
          groups[r][a] != groups[q][b])
  }

  ghost predicate Tree(orig: seq<nat>, freq: nat, size: seq<nat>, others: seq<int>, root: nat, g: seq<nat>)
    requires |size| == |others| == |orig|
  {
    if freq == 0 then g == []
    else
      && Chain(others, g) && g[0] == root
      && Over(orig, g) == freq
      && Over(Shares(size, |orig|), g) == Pow2(|orig|)
      && forall j :: 0 <= j < |g| ==> size[g[j]] < |g|
  }

  /** The whole state between two merges. */
  ghost predicate Forest(orig: seq<nat>, freq: seq<nat>, size: seq<nat>, others: seq<int>, groups: seq<seq<nat>>) {
    && |orig| == |freq| == |size| == |others| == |groups|
    && Covers(orig, groups) && Disjoint(groups)
    && (forall r :: 0 <= r < |orig| ==> Tree(orig, freq[r], size, others, r, groups[r]))
    && (forall s :: 0 <= s < |orig| && orig[s] == 0 ==> size[s] == 0)
  }

  lemma DistinctBound(g: seq<nat>, n: nat)
    requires Distinct(g) && forall j :: 0 <= j < |g| ==> g[j] < n
    ensures |g| <= n
  {
    var s := set j | 0 <= j < |g| :: g[j];
    MembersCount(g, s);
    Below(s, n);
  }

  lemma {:induction false} MembersCount(g: seq<nat>, s: set<nat>)
    requires Distinct(g) && s == set j | 0 <= j < |g| :: g[j]
    ensures |s| == |g|
  {
    if g != [] {
      var t := g[..|g| - 1];
      var u := set j | 0 <= j < |t| :: t[j];
      MembersCount(t, u);
      assert s == u + {g[|g| - 1]};
    }
  }

  lemma {:induction false} Below(s: set<nat>, n: nat)
    requires forall x :: x in s ==> x < n
    ensures |s| <= n
  {
    if n == 0 {
      assert s == {};
    } else {
      Below(s - {n - 1}, n - 1);
    }
  }

  /** The merged tree: the chain of c2 behind that of c1, everything one level further down. */
  ghost function JoinedGroups(groups: seq<seq<nat>>, c1: nat, c2: nat): (h: seq<seq<nat>>)
    requires c1 < |groups| && c2 < |groups|
    ensures |h| == |groups|
  {
    groups[c1 := groups[c1] + groups[c2]][c2 := []]
  }

  ghost predicate TwoRoots(freq: seq<nat>, groups: seq<seq<nat>>, c1: nat, c2: nat) {
    |freq| == |groups| && c1 < |freq| && c2 < |freq| && c1 != c2 && freq[c1] != 0 && freq[c2] != 0
  }

  lemma RootGroup(orig: seq<nat>, freq: seq<nat>, size: seq<nat>, others: seq<int>, groups: seq<seq<nat>>, r: nat)
    requires Forest(orig, freq, size, others, groups) && r < |orig| && freq[r] != 0
    ensures var g := groups[r];
            && Chain(others, g) && g[0] == r && Distinct(g) && |g| <= |orig|
            && Over(orig, g) == freq[r]
            && Over(Shares(size, |orig|), g) == Pow2(|orig|)
            && forall j :: 0 <= j < |g| ==> g[j] < |orig| && size[g[j]] < |g|
  {
    assert Tree(orig, freq[r], size, others, r, groups[r]);
    DistinctBound(groups[r], |orig|);
  }

  lemma JoinedTree(orig: seq<nat>, freq: seq<nat>, size: seq<nat>, others: seq<int>, groups: seq<seq<nat>>, c1: nat,
                   c2: nat)
    requires Forest(orig, freq, size, others, groups) && TwoRoots(freq, groups, c1, c2)
    ensures var g := groups[c1] + groups[c2];
            groups[c1] != [] && groups[c1][|groups[c1]| - 1] < |others| &&
            Tree(orig, freq[c1] + freq[c2], Deeper(size, g), others[groups[c1][|groups[c1]| - 1] := c2], c1, g)
  {
    hide Forest, Shares, Deeper, Tree, Covers, Over, Chain;
    ForestIsDisjoint(orig, freq, size, others, groups);
    RootGroup(orig, freq, size, others, groups, c1);
    RootGroup(orig, freq, size, others, groups, c2);
    Apart(groups, c1, c2);
    var g1, g2 := groups[c1], groups[c2];
    var g, k := g1 + g2, |orig|;
    JoinedChain(others, g1, g2);
    assert g1 != [] && g2 != [] by { ChainNonempty(others, g1); ChainNonempty(others, g2); }
    OverConcat(orig, g1, g2);
    JoinedShares(size, g1, g2, k);
    forall j | 0 <= j < |g|
      ensures Deeper(size, g)[g[j]] < |g|
    {
      DeeperIs(size, g, g[j]);
    }
    TreeIs(orig, freq[c1] + freq[c2], Deeper(size, g), others[g1[|g1| - 1] := c2], c1, g);
  }

  /** Two whole code spaces, halved, make one. */
  lemma JoinedShares(size: seq<nat>, g1: seq<nat>, g2: seq<nat>, k: nat)
    requires forall j :: 0 <= j < |g1| ==> g1[j] < |size| && size[g1[j]] < k
    requires forall j :: 0 <= j < |g2| ==> g2[j] < |size| && size[g2[j]] < k
    requires Over(Shares(size, k), g1) == Over(Shares(size, k), g2) == Pow2(k)
    ensures forall j :: 0 <= j < |g1 + g2| ==> (g1 + g2)[j] < |size|
    ensures Over(Shares(Deeper(size, g1 + g2), k), g1 + g2) == Pow2(k)
  {
    hide Over, Shares, Deeper, Pow2;
    OverConcat(Shares(Deeper(size, g1 + g2), k), g1, g2);
    DeeperShares(size, g1, g1 + g2, k);
    DeeperShares(size, g2, g1 + g2, k);
  }

  lemma ChainNonempty(others: seq<int>, g: seq<nat>)
    requires Chain(others, g)
    ensures g != []
  {
  }

  lemma DeeperIs(size: seq<nat>, g: seq<nat>, s: nat)
    requires s < |size|
    ensures Deeper(size, g)[s] == if s in g then size[s] + 1 else size[s]
  {
  }

  lemma TreeIs(orig: seq<nat>, freq: nat, size: seq<nat>, others: seq<int>, root: nat, g: seq<nat>)
    requires |size| == |others| == |orig| && freq != 0 && Chain(others, g) && g[0] == root
    requires Over(orig, g) == freq && Over(Shares(size, |orig|), g) == Pow2(|orig|)
    requires forall j :: 0 <= j < |g| ==> size[g[j]] < |g|
    ensures Tree(orig, freq, size, others, root, g)
  {
  }

  lemma ForestIsDisjoint(orig: seq<nat>, freq: seq<nat>, size: seq<nat>, others: seq<int>, groups: seq<seq<nat>>)
    requires Forest(orig, freq, size, others, groups)
    ensures |orig| == |freq| == |size| == |others| == |groups| && Disjoint(groups) && Covers(orig, groups)
  {
  }

  lemma JoinedChain(others: seq<int>, g1: seq<nat>, g2: seq<nat>)
    requires Chain(others, g1) && Chain(others, g2) && Distinct(g1)
    requires forall a, b :: 0 <= a < |g1| && 0 <= b < |g2| ==> g1[a] != g2[b]
    ensures Chain(others[g1[|g1| - 1] := g2[0]], g1 + g2)
  {
  }

  /** A tree that takes no part in the merge stays what it is. */
  lemma OtherTree(orig: seq<nat>, f: nat, size: seq<nat>, others: seq<int>, r: nat, g: seq<nat>, h: seq<nat>,
                  last: nat, c2: int)
    requires |size| == |others| == |orig| && last < |others| && Tree(orig, f, size, others, r, g)
    requires last in h && forall a, b :: 0 <= a < |g| && 0 <= b < |h| ==> g[a] != h[b]
    ensures Tree(orig, f, Deeper(size, h), others[last := c2], r, g)
  {
    if f != 0 {
      forall j | 0 <= j < |g|
        ensures g[j] !in h
      {
      }
      OverAgree(Shares(size, |orig|), Shares(Deeper(size, h), |orig|), g);
    }
  }

  lemma JoinedDisjoint(orig: seq<nat>, groups: seq<seq<nat>>, c1: nat, c2: nat)
    requires Disjoint(groups) && Covers(orig, groups) && c1 < |groups| && c2 < |groups| && c1 != c2
    ensures Disjoint(JoinedGroups(groups, c1, c2)) && Covers(orig, JoinedGroups(groups, c1, c2))
  {
    JoinedApart(groups, c1, c2);
    JoinedCovers(orig, groups, c1, c2);
  }

  lemma JoinedApart(groups: seq<seq<nat>>, c1: nat, c2: nat)
    requires Disjoint(groups) && c1 < |groups| && c2 < |groups| && c1 != c2
    ensures Disjoint(JoinedGroups(groups, c1, c2))
  {
    hide Disjoint, Distinct;
    var h := JoinedGroups(groups, c1, c2);
    forall r | 0 <= r < |h|
      ensures Distinct(h[r])
    {
      if r == c1 || r == c2 {
        JoinedIsDistinct(groups, c1, c2);
        NothingIsDistinct();
      } else {
        MemberIsDistinct(groups, r);
      }
    }
    forall r, q | 0 <= r < q < |h|
      ensures forall a, b :: 0 <= a < |h[r]| && 0 <= b < |h[q]| ==> h[r][a] != h[q][b]
    {
      JoinedPair(groups, c1, c2, r, q);
    }
    DisjointIs(h);
  }

  lemma DisjointIs(groups: seq<seq<nat>>)
    requires forall r :: 0 <= r < |groups| ==> Distinct(groups[r])
    requires forall r, q :: 0 <= r < q < |groups| ==>
               forall a, b :: 0 <= a < |groups[r]| && 0 <= b < |groups[q]| ==> groups[r][a] != groups[q][b]
    ensures Disjoint(groups)
  {
  }

  lemma MemberIsDistinct(groups: seq<seq<nat>>, r: nat)
    requires Disjoint(groups) && r < |groups|
    ensures Distinct(groups[r])
  {
  }

  lemma NothingIsDistinct()
    ensures Distinct<nat>([])
  {
  }

  lemma JoinedIsDistinct(groups: seq<seq<nat>>, c1: nat, c2: nat)
    requires Disjoint(groups) && c1 < |groups| && c2 < |groups| && c1 != c2
    ensures Distinct(groups[c1] + groups[c2])
    ensures Distinct(groups[c1]) && Distinct(groups[c2])
  {
    hide Disjoint;
    Apart(groups, c1, c2);
    MemberIsDistinct(groups, c1);
    MemberIsDistinct(groups, c2);
  }

  lemma JoinedPair(groups: seq<seq<nat>>, c1: nat, c2: nat, r: nat, q: nat)
    requires Disjoint(groups) && c1 < |groups| && c2 < |groups| && c1 != c2 && r < q < |groups|
    ensures var h := JoinedGroups(groups, c1, c2);
            forall a, b :: 0 <= a < |h[r]| && 0 <= b < |h[q]| ==> h[r][a] != h[q][b]
  {
    hide Disjoint;
    if r != c2 && q != c2 {
      Apart(groups, r, q);
      if r == c1 {
        Apart(groups, c2, q);
      } else if q == c1 {
        Apart(groups, r, c2);
      }
    }
  }

  lemma JoinedCovers(orig: seq<nat>, groups: seq<seq<nat>>, c1: nat, c2: nat)
    requires Covers(orig, groups) && c1 < |groups| && c2 < |groups| && c1 != c2
    ensures Covers(orig, JoinedGroups(groups, c1, c2))
  {
    var h := JoinedGroups(groups, c1, c2);
    forall s | 0 <= s < |orig| && orig[s] != 0
      ensures exists r :: 0 <= r < |h| && s in h[r]
    {
      var r :| 0 <= r < |groups| && s in groups[r];
      assert s in h[if r == c2 then c1 else r];
    }
  }

  lemma MergeForest(orig: seq<nat>, freq: seq<nat>, size: seq<nat>, others: seq<int>, groups: seq<seq<nat>>,
                    c1: nat, c2: nat)
    requires Forest(orig, freq, size, others, groups) && TwoRoots(freq, groups, c1, c2)
    ensures groups[c1] != [] && groups[c1][|groups[c1]| - 1] < |others|
    ensures Forest(orig, Merged(freq, c1, c2), Deeper(size, groups[c1] + groups[c2]),
                   others[groups[c1][|groups[c1]| - 1] := c2], JoinedGroups(groups, c1, c2))
  {
    hide Tree, Used, Covers, Disjoint, Chain, Over, Shares;
    JoinedTree(orig, freq, size, others, groups, c1, c2);
    JoinedDisjoint(orig, groups, c1, c2);
    var g := groups[c1] + groups[c2];
    var last := groups[c1][|groups[c1]| - 1];
    var f, h := Merged(freq, c1, c2), JoinedGroups(groups, c1, c2);
    var size', others' := Deeper(size, g), others[last := c2];
    forall r | 0 <= r < |orig|
      ensures Tree(orig, f[r], size', others', r, h[r])
    {
      if r == c2 {
        EmptyTree(orig, size', others', r);
      } else if r != c1 {
        Apart(groups, r, c1);
        Apart(groups, r, c2);
        OtherTree(orig, freq[r], size, others, r, groups[r], g, last, c2);
      }
    }
    forall s | 0 <= s < |orig| && orig[s] == 0
      ensures size'[s] == 0
    {
      NotMember(orig, groups, c1, s);
      NotMember(orig, groups, c2, s);
    }
  }

  lemma NotMember(orig: seq<nat>, groups: seq<seq<nat>>, r: nat, s: nat)
    requires Covers(orig, groups) && r < |groups| && s < |orig| && orig[s] == 0
    ensures s !in groups[r]
  {
  }

  lemma EmptyTree(orig: seq<nat>, size: seq<nat>, others: seq<int>, r: nat)
    requires |size| == |others| == |orig|
    ensures Tree(orig, 0, size, others, r, [])
  {
  }

  lemma Apart(groups: seq<seq<nat>>, r: nat, q: nat)
    requires Disjoint(groups) && r < |groups| && q < |groups| && r != q
    ensures forall a, b :: 0 <= a < |groups[r]| && 0 <= b < |groups[q]| ==> groups[r][a] != groups[q][b]
  {
    forall a, b | 0 <= a < |groups[r]| && 0 <= b < |groups[q]|
      ensures groups[r][a] != groups[q][b]
    {
      if q < r {
        assert groups[q][b] != groups[r][a];
      }
    }
  }

  /** Before the first merge every symbol in use is a tree of its own. */
  ghost function Singletons(orig: seq<nat>): (groups: seq<seq<nat>>)
    ensures |groups| == |orig|
  {
    seq(|orig|, i requires 0 <= i < |orig| => if orig[i] != 0 then [i] else [])
  }

  lemma StartForest(orig: seq<nat>, size: seq<nat>, others: seq<int>)
    requires |size| == |others| == |orig|
    requires forall i :: 0 <= i < |orig| ==> size[i] == 0 && others[i] == -1
    ensures Forest(orig, orig, size, others, Singletons(orig))
  {
    var groups := Singletons(orig);
    forall r | 0 <= r < |orig|
      ensures Tree(orig, orig[r], size, others, r, groups[r])
    {
      if orig[r] != 0 {
        assert groups[r][..0] == [];
        assert Over(orig, groups[r]) == orig[r];
        assert Over(Shares(size, |orig|), groups[r]) == Pow2(|orig|);
      }
    }
    assert forall s :: 0 <= s < |orig| && orig[s] != 0 ==> s in groups[s];
  }

  /** The members of g carry the whole sum. */
  lemma {:induction false} SumIsOver(t: seq<int>, f: seq<nat>, g: seq<nat>)
    requires |t| == |f| && Distinct(g) && forall j :: 0 <= j < |g| ==> g[j] < |f| && t[g[j]] == f[g[j]]
    requires forall s :: 0 <= s < |t| && s !in g ==> t[s] == 0
    ensures Sum(t) == Over(f, g)
    decreases |g|
  {
    if g == [] {
      SumOfZeros(t);
    } else {
      var c, h := g[|g| - 1], g[..|g| - 1];
      SumUpdate(t, c, 0);
      forall s | 0 <= s < |t| && s !in h
        ensures t[c := 0][s] == 0
      {
        assert g == h + [c];
      }
      SumIsOver(t[c := 0], f, h);
    }
  }

  /** Two symbols are in use. */
  ghost predicate AtLeastTwo(orig: seq<nat>) {
    exists s, t :: 0 <= s < t < |orig| && orig[s] != 0 && orig[t] != 0
  }

  /** What the finished code sizes satisfy: Kraft's equality, and no empty code word. */
  ghost predicate CompleteSizes(orig: seq<nat>, size: seq<nat>) {
    && |orig| == |size| && Within(orig, size, |orig|)
    && Sum(KraftTerms(orig, size, |orig|)) == Pow2(|orig|)
    && (forall s :: 0 <= s < |orig| ==> (size[s] == 0 <==> orig[s] == 0))
  }

  lemma FinishedForest(orig: seq<nat>, freq: seq<nat>, size: seq<nat>, others: seq<int>, groups: seq<seq<nat>>,
                       root: nat)
    requires Forest(orig, freq, size, others, groups) && AtLeastTwo(orig)
    requires root < |orig| && freq[root] != 0 && forall r :: 0 <= r < |orig| && r != root ==> freq[r] == 0
    ensures CompleteSizes(orig, size)
  {
    hide Forest, Chain, Over, Shares, Sum, KraftTerms, Pow2, AtLeastTwo;
    RootGroup(orig, freq, size, others, groups, root);
    OneTree(orig, freq, size, others, groups, root);
    KraftOfTree(orig, size, groups[root]);
    NoEmptyWord(orig, size, |orig|);
  }

  /** The last tree holds every symbol in use. */
  lemma OneTree(orig: seq<nat>, freq: seq<nat>, size: seq<nat>, others: seq<int>, groups: seq<seq<nat>>, root: nat)
    requires Forest(orig, freq, size, others, groups)
    requires root < |orig| && forall r :: 0 <= r < |orig| && r != root ==> freq[r] == 0
    ensures |size| == |groups| == |orig| && forall s :: 0 <= s < |orig| ==> (orig[s] != 0 <==> s in groups[root])
    ensures forall s :: 0 <= s < |orig| && orig[s] == 0 ==> size[s] == 0
  {
    hide Over, Shares, Chain, Disjoint;
    forall s | 0 <= s < |orig| && orig[s] != 0
      ensures s in groups[root]
    {
      var r :| 0 <= r < |groups| && s in groups[r];
      assert Tree(orig, freq[r], size, others, r, groups[r]);
    }
  }

  lemma KraftOfTree(orig: seq<nat>, size: seq<nat>, g: seq<nat>)
    requires |size| == |orig| && Distinct(g) && |g| <= |orig|
    requires forall j :: 0 <= j < |g| ==> g[j] < |orig| && size[g[j]] < |g|
    requires forall s :: 0 <= s < |orig| ==> (orig[s] != 0 <==> s in g)
    requires forall s :: 0 <= s < |orig| && orig[s] == 0 ==> size[s] == 0
    ensures Within(orig, size, |orig|)
    ensures Sum(KraftTerms(orig, size, |orig|)) == Over(Shares(size, |orig|), g)
  {
    hide Over, Sum;
    SumIsOver(KraftTerms(orig, size, |orig|), Shares(size, |orig|), g);
  }

  lemma NoEmptyWord(orig: seq<nat>, size: seq<nat>, k: nat)
    requires |orig| == |size| && Within(orig, size, k) && Sum(KraftTerms(orig, size, k)) == Pow2(k) && AtLeastTwo(orig)
    ensures forall s :: 0 <= s < |orig| && orig[s] != 0 ==> 0 < size[s]
  {
    hide Sum, KraftTerms, Pow2, Within;
    var x, y :| 0 <= x < y < |orig| && orig[x] != 0 && orig[y] != 0;
    forall s | 0 <= s < |orig| && orig[s] != 0
      ensures 0 < size[s]
    {
      SecondWord(orig, size, k, s, if s == x then y else x);
    }
  }

  lemma SecondWord(orig: seq<nat>, size: seq<nat>, k: nat, s: nat, t: nat)
    requires |orig| == |size| && Within(orig, size, k) && Sum(KraftTerms(orig, size, k)) == Pow2(k)
    requires s < |orig| && t < |orig| && s != t && orig[s] != 0 && orig[t] != 0
    ensures 0 < size[s]
  {
    hide Sum;
    SumOfTwo(KraftTerms(orig, size, k), s, t);
  }
}
