/** jpeg_gen_optimal_table of jchuff.c: code sizes, the 16-bit limit, and the finished table. */
module HuffmanTable {
  import opened Sequences
  import opened Powers
  import opened HuffmanOptimality
  import opened HuffmanForest
  import opened HuffmanLimit
  import opened HuffmanShortest

  /** The search loop: the rarest symbol other than `skip`, the last one in case of ties. */
  method FindRarest(freq: array<nat>, skip: int) returns (c: int)
    ensures c == Rarest(freq[..], skip, freq.Length)
  {
    c := -1;
    var v := MAX_TOTAL;
    for i := 0 to freq.Length
      invariant c == Rarest(freq[..], skip, i)
      invariant v == if c < 0 then MAX_TOTAL else freq[c]
    {
      if freq[i] != 0 && freq[i] <= v && i != skip {
        v := freq[i];
        c := i;
      }
    }
  }

  /** Increments the code size of everything in a tree and returns its last symbol. */
  method IncrementBranch(codesize: array<nat>, others: array<int>, root: nat, ghost g: seq<nat>) returns (last: nat)
    requires codesize.Length == others.Length && codesize[..] != [] && others as object != codesize
    requires Chain(others[..], g) && g[0] == root && Distinct(g)
    modifies codesize
    ensures codesize[..] == Deeper(old(codesize[..]), g)
    ensures last == g[|g| - 1]
  {
    hide Deeper;
    ghost var j := 0;
    var c1 := root;
    ghost var links := others[..];
    ChainAt(links, g, 0);
    DeeperNothing(codesize[..], g);
    DeeperStep(old(codesize[..]), g, 0);
    codesize[c1] := codesize[c1] + 1;
    while others[c1] >= 0
      invariant j < |g| && c1 == g[j] && others[..] == links
      invariant others[c1] >= 0 <==> j < |g| - 1
      invariant codesize[..] == Deeper(old(codesize[..]), g[..j + 1])
      decreases |g| - j
    {
      DeeperStep(old(codesize[..]), g, j + 1);
      ChainAt(links, g, j);
      ChainAt(links, g, j + 1);
      c1 := others[c1];
      j := j + 1;
      codesize[c1] := codesize[c1] + 1;
    }
    assert g[..|g|] == g;
    last := c1;
  }

  lemma ChainAt(others: seq<int>, g: seq<nat>, j: nat)
    requires Chain(others, g) && j < |g|
    ensures g[j] < |others| && (others[g[j]] >= 0 <==> j < |g| - 1)
    ensures j < |g| - 1 ==> others[g[j]] == g[j + 1]
  {
    assert j < |g| - 1 ==> others[g[j]] == g[j + 1];
    assert j == |g| - 1 ==> others[g[j]] < 0;
  }

  lemma DeeperNothing(size: seq<nat>, g: seq<nat>)
    ensures Deeper(size, g[..0]) == size
  {
  }

  /** What a run of merges keeps: the forest, the total count, and what the merges still cost. */
  ghost predicate Merging(orig: seq<nat>, freq: seq<nat>, size: seq<nat>, others: seq<int>, groups: seq<seq<nat>>) {
    && Forest(orig, freq, size, others, groups)
    && Sum(freq) <= MAX_TOTAL
    && Cost(orig, size) + MergeCost(freq) == MergeCost(orig)
    && exists r :: 0 <= r < |freq| && freq[r] != 0
  }

  /** One merge. */
  lemma MergeStep(orig: seq<nat>, freq: seq<nat>, size: seq<nat>, others: seq<int>, groups: seq<seq<nat>>,
                  c1: nat, c2: nat)
    requires Merging(orig, freq, size, others, groups)
    requires c1 == Rarest(freq, -1, |freq|) && c2 == Rarest(freq, c1, |freq|)
    ensures TwoRoots(freq, groups, c1, c2)
    ensures groups[c1] != [] && groups[c1][|groups[c1]| - 1] < |others|
    ensures Merging(orig, Merged(freq, c1, c2), Deeper(size, groups[c1] + groups[c2]),
                    others[groups[c1][|groups[c1]| - 1] := c2], JoinedGroups(groups, c1, c2))
  {
    hide Tree, Covers, Disjoint, Cost, Sum, Used, Deeper, Chain, Over, Rarest;
    MergeForest(orig, freq, size, others, groups, c1, c2);
    MergedSum(freq, c1, c2);
    var g1, g2 := groups[c1], groups[c2];
    RootGroup(orig, freq, size, others, groups, c1);
    RootGroup(orig, freq, size, others, groups, c2);
    ForestIsDisjoint(orig, freq, size, others, groups);
    JoinedIsDistinct(groups, c1, c2);
    OverConcat(orig, g1, g2);
    var g := g1 + g2;
    assert g[..|g|] == g;
    DeeperCost(orig, size, g, |g|);
    assert Merged(freq, c1, c2)[c1] != 0;
  }

  lemma DeeperTwice(size: seq<nat>, g: seq<nat>, h: seq<nat>)
    requires forall a, b :: 0 <= a < |g| && 0 <= b < |h| ==> g[a] != h[b]
    ensures Deeper(Deeper(size, g), h) == Deeper(size, g + h)
  {
  }

  /** The merging is over when no second symbol is found. */
  lemma MergingDone(orig: seq<nat>, freq: seq<nat>, size: seq<nat>, others: seq<int>, groups: seq<seq<nat>>, c1: int)
    requires Merging(orig, freq, size, others, groups) && AtLeastTwo(orig)
    requires c1 == Rarest(freq, -1, |freq|) && Rarest(freq, c1, |freq|) < 0
    ensures CompleteSizes(orig, size) && Cost(orig, size) == MergeCost(orig)
  {
    forall i | 0 <= i < |freq|
      ensures freq[i] <= MAX_TOTAL
    {
      TermAtMostSum(freq, i);
    }
    FinishedForest(orig, freq, size, others, groups, c1);
  }

  /** A symbol table of 256 counts, with the pseudo-symbol added. */
  ghost predicate Countable(orig: seq<nat>) {
    |orig| == SYMBOLS && orig[256] == 1 && Sum(orig) <= MAX_TOTAL
  }

  ghost predicate SomeUsed(orig: seq<nat>) {
    exists s :: 0 <= s < 256 && s < |orig| && orig[s] != 0
  }

  ghost predicate CountsOk(orig: seq<nat>) {
    Countable(orig) && SomeUsed(orig)
  }

  lemma CountsAreTwo(orig: seq<nat>)
    requires CountsOk(orig)
    ensures AtLeastTwo(orig)
  {
    var s :| 0 <= s < 256 && s < |orig| && orig[s] != 0;
    assert s < 256 && orig[s] != 0 && orig[256] != 0;
  }

  lemma MergingStarts(orig: seq<nat>, size: seq<nat>, others: seq<int>)
    requires Countable(orig) && |size| == |others| == |orig|
    requires forall i :: 0 <= i < |orig| ==> size[i] == 0 && others[i] == -1
    ensures Merging(orig, orig, size, others, Singletons(orig))
  {
    hide Forest;
    StartForest(orig, size, others);
    var t := CostTerms(orig, size);
    SumOfZeros(t);
  }

  /** Where only the pseudo-symbol is counted there is nothing to merge. */
  lemma OnlyPseudoSymbol(orig: seq<nat>)
    requires Countable(orig) && !SomeUsed(orig)
    ensures Rarest(orig, -1, |orig|) == 256 && Rarest(orig, 256, |orig|) < 0
  {
    var c := Rarest(orig, -1, |orig|);
    TermAtMostSum(orig, 256);
    assert 0 < orig[256] <= MAX_TOTAL;
  }

  /**
   Huffman's procedure: the sizes are complete, and no prefix code costs less. There are no sizes when no
   symbol is used.
   */
  method AssignSizes(freq: array<nat>) returns (codesize: array<nat>)
    requires Countable(freq[..])
    modifies freq
    ensures fresh(codesize) && codesize.Length == SYMBOLS
    ensures SomeUsed(old(freq[..])) ==>
              && CompleteSizes(old(freq[..]), codesize[..])
              && Cost(old(freq[..]), codesize[..]) == MergeCost(old(freq[..]))
    ensures !SomeUsed(old(freq[..])) ==> forall s :: 0 <= s < codesize.Length ==> codesize[s] == 0
  {
    hide Merging, CompleteSizes, Cost, Sum, Deeper, JoinedGroups, MergeCost, SomeUsed, Rarest;
    ghost var orig := freq[..];
    codesize := new nat[freq.Length](_ => 0);
    var others := new int[freq.Length](_ => -1);
    ghost var groups := Singletons(orig);
    MergingStarts(orig, codesize[..], others[..]);
    if SomeUsed(orig) {
      CountsAreTwo(orig);
    } else {
      OnlyPseudoSymbol(orig);
    }
    while true
      invariant freq.Length == codesize.Length == others.Length == SYMBOLS
      invariant Merging(orig, freq[..], codesize[..], others[..], groups)
      invariant !SomeUsed(orig) ==> freq[..] == orig && forall s :: 0 <= s < codesize.Length ==> codesize[s] == 0
      decreases Used(freq[..])
    {
      var c1 := FindRarest(freq, -1);
      var c2 := FindRarest(freq, c1);
      if c2 < 0 {
        if SomeUsed(orig) {
          MergingDone(orig, freq[..], codesize[..], others[..], groups, c1);
        }
        break;
      }
      MergeBranches(freq, codesize, others, c1, c2, orig, groups);
      groups := JoinedGroups(groups, c1, c2);
    }
  }

  /** Merges the tree of c2 into that of c1: counts, code sizes and links. */
  method MergeBranches(freq: array<nat>, codesize: array<nat>, others: array<int>, c1: nat, c2: nat,
                       ghost orig: seq<nat>, ghost groups: seq<seq<nat>>)
    requires Merging(orig, freq[..], codesize[..], others[..], groups)
    requires freq != codesize && freq.Length == codesize.Length == others.Length && others as object !in {freq, codesize}
    requires c1 == Rarest(freq[..], -1, freq.Length) && c2 == Rarest(freq[..], c1, freq.Length)
    modifies freq, codesize, others
    ensures c1 < |groups| && c2 < |groups| && c1 < |old(freq[..])| && c2 < |old(freq[..])| && c1 != c2
    ensures old(freq[c1]) != 0 && old(freq[c2]) != 0 && freq[..] == Merged(old(freq[..]), c1, c2)
    ensures Merging(orig, freq[..], codesize[..], others[..], JoinedGroups(groups, c1, c2))
  {
    hide Merging, Cost, Sum, Deeper, JoinedGroups, MergeCost, Rarest, Chain, Distinct;
    ghost var before, sizes, links := freq[..], codesize[..], others[..];
    MergeStep(orig, before, sizes, links, groups, c1, c2);
    MergeGroups(orig, before, sizes, links, groups, c1, c2);
    freq[c1] := freq[c1] + freq[c2];
    freq[c2] := 0;
    assert freq[..] == Merged(before, c1, c2);
    var last := IncrementBranch(codesize, others, c1, groups[c1]);
    others[last] := c2;
    var _ := IncrementBranch(codesize, others, c2, groups[c2]);
  }

  lemma MergeGroups(orig: seq<nat>, freq: seq<nat>, size: seq<nat>, others: seq<int>, groups: seq<seq<nat>>,
                    c1: nat, c2: nat)
    requires Merging(orig, freq, size, others, groups) && TwoRoots(freq, groups, c1, c2)
    ensures |orig| == |freq| == |size| == |others| == |groups|
    ensures Chain(others, groups[c1]) && groups[c1][0] == c1 && Distinct(groups[c1])
    ensures Chain(others[groups[c1][|groups[c1]| - 1] := c2], groups[c2]) && groups[c2][0] == c2 && Distinct(groups[c2])
    ensures Deeper(Deeper(size, groups[c1]), groups[c2]) == Deeper(size, groups[c1] + groups[c2])
  {
    hide Tree, Cost, Sum, Over, Covers;
    RootGroup(orig, freq, size, others, groups, c1);
    RootGroup(orig, freq, size, others, groups, c2);
    ForestIsDisjoint(orig, freq, size, others, groups);
    Apart(groups, c1, c2);
    DeeperTwice(size, groups[c1], groups[c2]);
  }

  // ---------------------------------------------------------------- counting and limiting lengths

  ghost function CountNonzero(s: seq<nat>): nat {
    if s == [] then 0 else CountNonzero(s[..|s| - 1]) + if s[|s| - 1] != 0 then 1 else 0
  }

  /** How many symbols have code size l. */
  ghost function CountOf(size: seq<nat>, l: nat): nat {
    if size == [] then 0 else CountOf(size[..|size| - 1], l) + if size[|size| - 1] == l then 1 else 0
  }

  ghost function SizeTerms(size: seq<nat>): (t: seq<int>)
    ensures |t| == |size|
  {
    seq(|size|, s requires 0 <= s < |size| => if 1 <= size[s] <= MAX_CLEN then Pow2(MAX_CLEN - size[s]) else 0)
  }

  /** bits[] counts the lengths of the first symbols. */
  ghost predicate Counted(bits: seq<nat>, size: seq<nat>, n: nat) {
    && |bits| == MAX_CLEN + 1 && n <= |size| && bits[0] == 0
    && (forall l :: 1 <= l <= MAX_CLEN ==> bits[l] == CountOf(size[..n], l))
    && Sum(bits) == CountNonzero(size[..n])
    && Space(bits) == Sum(SizeTerms(size)[..n])
  }

  lemma CountedStep(bits: seq<nat>, size: seq<nat>, n: nat)
    requires Counted(bits, size, n) && n < |size| && size[n] <= MAX_CLEN
    ensures Counted(if size[n] == 0 then bits else bits[size[n] := bits[size[n]] + 1], size, n + 1)
  {
    hide Space, Sum, Pow2;
    var t := SizeTerms(size);
    assert size[..n + 1][..n] == size[..n] && t[..n + 1][..n] == t[..n];
    SumSnoc(t[..n + 1]);
    if size[n] != 0 {
      SpaceChange(bits, size[n], 1);
    }
  }

  lemma SumSnoc(t: seq<int>)
    requires t != []
    ensures Sum(t) == Sum(t[..|t| - 1]) + t[|t| - 1]
  {
  }

  lemma CountedStart(bits: seq<nat>, size: seq<nat>)
    requires |bits| == MAX_CLEN + 1 && forall l :: 0 <= l < |bits| ==> bits[l] == 0
    ensures Counted(bits, size, 0)
  {
    SumOfZeros(bits);
    SumOfZeros(SpaceTerms(bits));
    assert size[..0] == [] && SizeTerms(size)[..0] == [];
  }

  /** Complete sizes of at most 32 bits give complete counts. */
  lemma CountsAreComplete(orig: seq<nat>, size: seq<nat>, bits: seq<nat>)
    requires CompleteSizes(orig, size) && Counted(bits, size, |size|) && MAX_CLEN <= |orig|
    requires forall s :: 0 <= s < |size| ==> size[s] <= MAX_CLEN
    ensures Complete(bits, MAX_CLEN)
  {
    hide Pow2, Sum;
    var t := SizeTerms(size);
    assert t[..|t|] == t;
    assert t == KraftTerms(orig, size, MAX_CLEN);
    var d := |orig| - MAX_CLEN;
    Rescale(orig, size, MAX_CLEN, d);
    Pow2Add(d, MAX_CLEN);
    CancelFactor(Pow2(d), Sum(t), Pow2(MAX_CLEN));
    CancelFactor(Pow2(d), Pow2(MAX_CLEN), Sum(t));
  }

  lemma {:induction false} CountNonzeroSame(s: seq<nat>, t: seq<nat>)
    requires |s| == |t| && forall i :: 0 <= i < |s| ==> (s[i] == 0 <==> t[i] == 0)
    ensures CountNonzero(s) == CountNonzero(t)
  {
    if s != [] {
      CountNonzeroSame(s[..|s| - 1], t[..|t| - 1]);
    }
  }

  /** No count exceeds what an unsigned byte holds. */
  ghost predicate FitsBytes(bits: seq<nat>) {
    forall l :: 0 <= l < |bits| ==> bits[l] < 0x100
  }

  /** bits[] counts in unsigned bytes. */
  ghost predicate Wrapped(bits: seq<nat>, counts: seq<nat>) {
    |bits| == |counts| && forall l :: 0 <= l < |bits| ==> bits[l] == counts[l] % BYTE
  }

  /** Counts the symbols of each code length, unless one is longer than 32 bits. */
  method CountSizes(codesize: array<nat>, bits: array<nat>) returns (ok: bool, ghost counts: seq<nat>)
    requires bits.Length == MAX_CLEN + 1 && bits != codesize && forall l :: 0 <= l < bits.Length ==> bits[l] == 0
    modifies bits
    ensures ok <==> forall s :: 0 <= s < codesize.Length ==> codesize[s] <= MAX_CLEN
    ensures ok ==> Counted(counts, codesize[..], codesize.Length) && Wrapped(bits[..], counts)
  {
    hide Counted;
    counts := bits[..];
    CountedStart(counts, codesize[..]);
    for i := 0 to codesize.Length
      invariant |counts| == MAX_CLEN + 1 && Counted(counts, codesize[..], i) && Wrapped(bits[..], counts)
      invariant forall s :: 0 <= s < i ==> codesize[s] <= MAX_CLEN
    {
      if codesize[i] != 0 && codesize[i] > MAX_CLEN {
        return false, counts;
      }
      CountedStep(counts, codesize[..], i);
      if codesize[i] != 0 {
        bits[codesize[i]] := (bits[codesize[i]] + 1) % BYTE;
        counts := counts[codesize[i] := counts[codesize[i]] + 1];
      }
    }
    ok := true;
  }

  /** No length above 16 is in use. */
  ghost predicate NoneLong(bits: seq<nat>) {
    forall l :: MAX_BITS < l < |bits| ==> bits[l] == 0
  }

  /** The lengths fill the code space, and no byte overflows. */
  ghost predicate Limitable(bits: seq<nat>, i: nat) {
    Complete(bits, i) && Sum(bits) <= 257 && !Crowded(bits)
  }

  /**
   Brings all lengths down to 16 bits; the search for a shorter word always succeeds, and no byte overflows.
   Short words are kept as far as the others leave them room; where no length is above 16 nothing changes.
   */
  method LimitLengths(bits: array<nat>)
    requires bits.Length == MAX_CLEN + 1 && (NoneLong(bits[..]) || Limitable(bits[..], MAX_CLEN))
    modifies bits
    ensures old(Limitable(bits[..], MAX_CLEN)) ==> Limitable(bits[..], MAX_BITS) && Sum(bits[..]) == old(Sum(bits[..]))
    ensures old(NoneLong(bits[..])) ==> bits[..] == old(bits[..])
    ensures KeepsShort(old(bits[..]), bits[..])
  {
    hide Limitable, Sum, KeepsShort, Spare;
    KeepsItself(bits[..]);
    for i := MAX_CLEN downto MAX_BITS
      invariant old(Limitable(bits[..], MAX_CLEN)) ==> Limitable(bits[..], i) && Sum(bits[..]) == old(Sum(bits[..]))
      invariant old(NoneLong(bits[..])) ==> bits[..] == old(bits[..])
      invariant KeepsShort(old(bits[..]), bits[..]) && Spare(old(bits[..]), 0) == Spare(bits[..], 0)
    {
      LimitLength(bits, i + 1, old(bits[..]));
      if Limitable(bits[..], i + 1) {
        NotInUse(bits[..], i + 1);
      }
    }
  }

  lemma NotInUse(bits: seq<nat>, i: nat)
    requires Limitable(bits, i) && 1 <= i <= MAX_CLEN && bits[i] == 0
    ensures Limitable(bits, i - 1)
  {
  }

  /** Empties one length category, two words at a time. */
  method LimitLength(bits: array<nat>, i: nat, ghost orig: seq<nat>)
    requires bits.Length == MAX_CLEN + 1 == |orig| && MAX_BITS < i <= MAX_CLEN
    requires KeepsShort(orig, bits[..]) && Spare(orig, 0) == Spare(bits[..], 0)
    requires bits[i] == 0 || Limitable(bits[..], i)
    modifies bits
    ensures bits[i] == 0
    ensures old(Limitable(bits[..], i)) ==> Limitable(bits[..], i) && Sum(bits[..]) == old(Sum(bits[..]))
    ensures old(bits[i]) == 0 ==> bits[..] == old(bits[..])
    ensures KeepsShort(orig, bits[..]) && Spare(orig, 0) == Spare(bits[..], 0)
  {
    hide Limitable, Sum, Shortened, KeepsShort, Spare;
    while bits[i] > 0
      invariant old(Limitable(bits[..], i)) ==> Limitable(bits[..], i) && Sum(bits[..]) == old(Sum(bits[..]))
      invariant old(bits[i]) == 0 ==> bits[..] == old(bits[..])
      invariant KeepsShort(orig, bits[..]) && Spare(orig, 0) == Spare(bits[..], 0)
      decreases bits[i]
    {
      ghost var before := bits[..];
      PairFound(before, i);
      var j := i - 2;
      while bits[j] == 0
        invariant j <= i - 2 && (exists l :: 1 <= l <= j && bits[l] != 0) && forall l :: j < l <= i - 2 ==> bits[l] == 0
        decreases j
      {
        j := j - 1;
      }
      ShortenedFits(before, i, j);
      ShortenedKeepsShort(orig, before, i, j);
      ShortenedIs(before, i, j);
      bits[i] := bits[i] - 2;
      bits[i - 1] := (bits[i - 1] + 1) % BYTE;
      bits[j + 1] := (bits[j + 1] + 2) % BYTE;
      bits[j] := bits[j] - 1;
      assert bits[..] == Shortened(before, i, j);
    }
  }

  /** There are two words of the longest length, and a shorter one further down. */
  lemma PairFound(bits: seq<nat>, i: nat)
    requires Limitable(bits, i) && MAX_BITS < i && bits[i] != 0
    ensures 2 <= bits[i] && exists l :: 1 <= l <= i - 2 && bits[l] != 0
  {
    hide Sum, Space, Crowded;
    LongestIsEven(bits, i);
    ShortWordExists(bits, i);
  }

  /** One adjustment stays within bytes. */
  lemma ShortenedFits(bits: seq<nat>, i: nat, j: nat)
    requires Limitable(bits, i) && MAX_BITS < i <= MAX_CLEN && 1 <= j <= i - 2 && 2 <= bits[i] && 1 <= bits[j]
    ensures Limitable(Shortened(bits, i, j), i) && Sum(Shortened(bits, i, j)) == Sum(bits)
    ensures Shortened(bits, i, j)[i] == bits[i] - 2
    ensures forall l :: 0 <= l <= MAX_CLEN ==> Shortened(bits, i, j)[l] < BYTE
  {
    hide Sum, Space;
    ShortenedKeeps(bits, i, j);
    assert Shortened(bits, i, j)[i - 1] != 0;
    NotCrowded(Shortened(bits, i, j), i - 1);
  }

  // ---------------------------------------------------------------- the finished table

  /** JHUFF_TBL: counts of lengths 0 to 16 and the symbols in order of length. */
  datatype HuffTable = HuffTable(bits: seq<nat>, huffval: seq<nat>)

  datatype Result = Table(table: HuffTable) | ClenOverflow | NoLengthLeft

  /** Symbols below n in order of size, ties in symbol order. */
  ghost predicate Precedes(size: seq<nat>, s: nat, t: nat)
    requires s < |size| && t < |size|
  {
    size[s] < size[t] || (size[s] == size[t] && s < t)
  }

  ghost predicate Ordered(size: seq<nat>, listed: seq<nat>) {
    && (forall p :: 0 <= p < |listed| ==> listed[p] < |size|)
    && forall p, q :: 0 <= p < q < |listed| ==> Precedes(size, listed[p], listed[q])
  }

  /** How many symbols have sizes 1 to l. */
  ghost function CountUpTo(size: seq<nat>, l: nat): nat {
    if l == 0 then 0 else CountUpTo(size, l - 1) + CountOf(size, l)
  }

  /** Lists the real symbols that have a code size, by size. */
  method ListSymbols(codesize: array<nat>) returns (huffval: seq<nat>)
    requires codesize.Length == SYMBOLS && forall s :: 0 <= s < codesize.Length ==> codesize[s] <= MAX_CLEN
    ensures Ordered(codesize[..], huffval)
    ensures forall s :: s in huffval <==> 0 <= s < 256 && codesize[s] != 0
    ensures |huffval| == CountUpTo(codesize[..256], MAX_CLEN)
  {
    huffval := [];
    for i := 1 to MAX_CLEN + 1
      invariant Ordered(codesize[..], huffval)
      invariant forall s :: s in huffval <==> 0 <= s < 256 && 1 <= codesize[s] < i
      invariant |huffval| == CountUpTo(codesize[..256], i - 1)
    {
      for j := 0 to 256
        invariant Ordered(codesize[..], huffval)
        invariant forall s :: s in huffval <==> 0 <= s < 256 && 1 <= codesize[s] && (codesize[s] < i || (codesize[s] == i && s < j))
        invariant |huffval| == CountUpTo(codesize[..256], i - 1) + CountOf(codesize[..j], i)
      {
        assert codesize[..j + 1][..j] == codesize[..j];
        if codesize[j] == i {
          huffval := huffval + [j];
        }
      }
    }
  }

  lemma {:induction false} CountUpToSum(bits: seq<nat>, size: seq<nat>, l: nat)
    requires |bits| == MAX_CLEN + 1 && l <= MAX_CLEN && bits[0] == 0
    requires forall k :: 1 <= k <= MAX_CLEN ==> bits[k] == CountOf(size, k)
    ensures CountUpTo(size, l) == Sum(bits[..l + 1])
  {
    assert bits[..l + 1][..l] == bits[..l];
    if l > 0 {
      CountUpToSum(bits, size, l - 1);
    } else {
      assert bits[..1][..0] == [];
    }
  }

  lemma {:induction false} CountUpToSnoc(size: seq<nat>, l: nat)
    requires size != [] && size[|size| - 1] != 0
    ensures CountUpTo(size, l) == CountUpTo(size[..|size| - 1], l) + if size[|size| - 1] <= l then 1 else 0
  {
    if l > 0 {
      CountUpToSnoc(size, l - 1);
    }
  }

  /** The pseudo-symbol is counted but not listed. */
  lemma ListedCount(bits: seq<nat>, size: seq<nat>)
    requires Counted(bits, size, |size|) && |size| == SYMBOLS && 1 <= size[256] <= MAX_CLEN
    ensures CountUpTo(size[..256], MAX_CLEN) == Sum(bits) - 1
  {
    hide Space;
    assert size[..|size|] == size && bits[..MAX_CLEN + 1] == bits;
    CountUpToSum(bits, size, MAX_CLEN);
    CountUpToSnoc(size, MAX_CLEN);
  }

  /**
   The table fits the code space with the all-ones word of its longest length `last` left out, and
   lists every symbol in use exactly once, more deeply nested symbols later.
   */
  ghost predicate GoodTable(orig: seq<nat>, size: seq<nat>, t: HuffTable, last: nat) {
    && |orig| == |size| == SYMBOLS
    && |t.bits| == MAX_BITS + 1 && t.bits[0] == 0 && FitsBytes(t.bits)
    && 1 <= last <= MAX_BITS && (forall l :: last < l <= MAX_BITS ==> t.bits[l] == 0)
    && Sum(SpaceTerms16(t.bits)) == Pow2(MAX_BITS) - Pow2(MAX_BITS - last)
    && Sum(t.bits) == |t.huffval|
    && Ordered(size, t.huffval)
    && forall s :: s in t.huffval <==> 0 <= s < 256 && orig[s] != 0
  }

  /** The code space of lengths up to 16, in units of 16-bit words. */
  ghost function SpaceTerms16(bits: seq<nat>): (t: seq<int>)
    requires |bits| == MAX_BITS + 1
    ensures |t| == |bits|
  {
    seq(|bits|, l requires 0 <= l < |bits| => bits[l] * Pow2(MAX_BITS - l))
  }

  lemma Space16(bits: seq<nat>)
    requires |bits| == MAX_CLEN + 1 && forall l :: MAX_BITS < l <= MAX_CLEN ==> bits[l] == 0
    ensures Space(bits) == Pow2(16) * Sum(SpaceTerms16(bits[..MAX_BITS + 1]))
    ensures Sum(bits) == Sum(bits[..MAX_BITS + 1])
  {
    hide Sum, Pow2;
    var t, s := SpaceTerms(bits), SpaceTerms16(bits[..MAX_BITS + 1]);
    SumSplit(bits, MAX_BITS + 1);
    SumSplit(t, MAX_BITS + 1);
    forall l | 0 <= l <= MAX_BITS
      ensures t[..MAX_BITS + 1][l] == Pow2(16) * s[l]
    {
      Pow2Add(16, MAX_BITS - l);
      Reorder(bits[l], Pow2(16), Pow2(MAX_BITS - l));
    }
    SumScale(s, t[..MAX_BITS + 1], Pow2(16));
  }

  lemma Reorder(x: int, y: int, z: int)
    ensures x * (y * z) == y * (x * z)
  {
  }

  /** Removing the pseudo-symbol leaves the all-ones word unused. */
  lemma FinalSpace(before: seq<nat>, last: nat)
    requires Complete(before, MAX_BITS) && 1 <= last <= MAX_BITS && before[last] != 0
    requires Complete(before, last)
    ensures var bits := before[last := before[last] - 1];
            && Sum(SpaceTerms16(bits[..MAX_BITS + 1])) == Pow2(MAX_BITS) - Pow2(MAX_BITS - last)
            && Sum(bits[..MAX_BITS + 1]) == Sum(before) - 1
  {
    hide Sum, Pow2, Space, SpaceTerms16;
    var bits := before[last := before[last] - 1];
    WithoutLast(before, last);
    Space16(bits);
    Pow2Add(16, 16);
    Pow2Add(16, MAX_BITS - last);
    WithoutUnit(Sum(SpaceTerms16(bits[..MAX_BITS + 1])), Pow2(16), Pow2(MAX_BITS - last));
  }

  lemma WithoutUnit(s: int, k: nat, p: nat)
    requires 0 < k && k * s == k * k - k * p
    ensures s == k - p
  {
    MulMinus(k, p, k);
    Cancel(s, k - p, k);
  }

  lemma PseudoSymbolSize(orig: seq<nat>, size: seq<nat>)
    requires CountsOk(orig) && CompleteSizes(orig, size)
    ensures |size| == SYMBOLS && size[256] != 0 && CountNonzero(size) == CountNonzero(orig)
    ensures forall s :: 0 <= s < |size| ==> (size[s] == 0 <==> orig[s] == 0)
  {
    CountNonzeroSame(orig, size);
  }

  /** Takes one word of the largest length in use away; without one the search would leave bits[]. */
  method RemovePseudoSymbol(bits: array<nat>) returns (ok: bool, last: nat)
    requires bits.Length == MAX_CLEN + 1
    modifies bits
    ensures ok <==> exists l :: 0 <= l <= MAX_BITS && old(bits[l]) != 0
    ensures ok ==> last <= MAX_BITS && old(bits[last]) != 0 && forall l :: last < l <= MAX_BITS ==> old(bits[l]) == 0
    ensures ok ==> bits[..] == old(bits[..][last := bits[last] - 1])
  {
    var i := MAX_BITS;
    while bits[i] == 0
      invariant 0 <= i <= MAX_BITS && forall l :: i < l <= MAX_BITS ==> bits[l] == 0
      decreases i
    {
      if i == 0 {
        return false, 0;
      }
      i := i - 1;
    }
    bits[i] := bits[i] - 1;
    return true, i;
  }

  /** Some symbol has more than 32 bits. */
  ghost predicate HasLong(size: seq<nat>) {
    exists s :: 0 <= s < |size| && size[s] > MAX_CLEN
  }

  /**
   jpeg_gen_optimal_table, for any counts; `size` are the sizes before they were limited. It fails when
   Huffman's procedure gives a symbol more than 32 bits. The table is as it should be unless 256 symbols
   have the same size: their count overflows a byte, which leaves no length to take the pseudo-symbol
   from if it is 8, and an empty table if it is 9. It cannot be another one.
   */
  method GenOptimalTable(freq: array<nat>) returns (r: Result, ghost size: seq<nat>, ghost last: nat)
    requires freq.Length == SYMBOLS && Countable(freq[..][256 := 1])
    modifies freq
    ensures !SomeUsed(old(freq[..][256 := 1])) ==> r.NoLengthLeft?
    ensures SomeUsed(old(freq[..][256 := 1])) ==>
              && CompleteSizes(old(freq[..][256 := 1]), size)
              && Cost(old(freq[..][256 := 1]), size) == MergeCost(old(freq[..][256 := 1]))
              && (r.ClenOverflow? <==> HasLong(size))
              && (r.NoLengthLeft? <==> !HasLong(size) && CountOf(size, 8) == 256)
    ensures r.Table? ==> |r.table.bits| == MAX_BITS + 1
    ensures r.Table? ==> (GoodTable(old(freq[..][256 := 1]), size, r.table, last) <==> CountOf(size, 9) != 256)
    ensures r.Table? && CountOf(size, 9) != 256 ==> KeepsShort(LengthCounts(size), WithPseudoSymbol(r.table.bits, last))
  {
    hide Countable, SomeUsed, CompleteSizes, Cost, MergeCost, Counted, Wrapped, Limitable, Sum, Ordered, CountUpTo,
         GoodTable, CountOf, KeepsShort, LengthCounts, WithPseudoSymbol;
    last := 0;
    freq[256] := 1;
    ghost var orig := freq[..];
    assert orig == old(freq[..][256 := 1]);
    var codesize := AssignSizes(freq);
    size := codesize[..];
    var bits := new nat[MAX_CLEN + 1](_ => 0);
    var ok;
    ghost var counts;
    ok, counts := CountSizes(codesize, bits);
    if !ok {
      assert HasLong(size);
      if !SomeUsed(orig) {
        NoneIsLong(size);
      }
      return ClenOverflow, size, last;
    }
    CountedCases(orig, size, counts, bits[..]);
    LimitLengths(bits);
    ghost var limited := bits[..];
    SomethingLeft(limited);
    ok, last := RemovePseudoSymbol(bits);
    if !ok {
      return NoLengthLeft, size, last;
    }
    var huffval := ListSymbols(codesize);
    r := Table(HuffTable(bits[..MAX_BITS + 1], huffval));
    if CountOf(size, 9) == 256 {
      EmptyTable(orig, size, counts, limited, r.table, last);
    } else {
      FullTable(orig, size, counts, limited, r.table, last);
      LimitedCounts(size, counts, limited, r.table.bits, last);
    }
  }

  /** How many symbols have each size. */
  ghost function LengthCounts(size: seq<nat>): (c: seq<nat>)
    ensures |c| == MAX_CLEN + 1
  {
    seq(MAX_CLEN + 1, l requires 0 <= l <= MAX_CLEN => if l == 0 then 0 else CountOf(size, l))
  }

  /** The counts of a table with the pseudo-symbol put back. */
  ghost function WithPseudoSymbol(bits: seq<nat>, last: nat): (c: seq<nat>)
    ensures |c| == MAX_CLEN + 1
  {
    seq(MAX_CLEN + 1, l requires 0 <= l <= MAX_CLEN => (if l < |bits| then bits[l] else 0) + if l == last then 1 else 0)
  }

  lemma LimitedCounts(size: seq<nat>, counts: seq<nat>, limited: seq<nat>, bits: seq<nat>, last: nat)
    requires Counted(counts, size, |size|) && Limitable(limited, MAX_BITS) && last <= MAX_BITS
    requires |limited| == MAX_CLEN + 1 && limited[last] != 0
    requires bits == limited[last := limited[last] - 1][..MAX_BITS + 1]
    ensures LengthCounts(size) == counts && WithPseudoSymbol(bits, last) == limited
  {
    hide Sum, Space, CountOf;
    assert size[..|size|] == size;
  }

  lemma NoneIsLong(size: seq<nat>)
    requires forall s :: 0 <= s < |size| ==> size[s] == 0
    ensures !HasLong(size)
  {
  }

  ghost predicate AllZero(bits: seq<nat>) {
    forall l :: 0 <= l < |bits| ==> bits[l] == 0
  }

  /** What remains in bytes of one word of 1 bit and 256 of 9. */
  ghost predicate OneShort(bits: seq<nat>) {
    forall l :: 0 <= l < |bits| ==> bits[l] == if l == 1 then 1 else 0
  }

  /** The counts before they are limited: those of all symbols, unless 256 symbols share a size. */
  lemma CountedCases(orig: seq<nat>, size: seq<nat>, counts: seq<nat>, bits: seq<nat>)
    requires Countable(orig) && |size| == SYMBOLS && Counted(counts, size, |size|) && Wrapped(bits, counts)
    requires if SomeUsed(orig) then CompleteSizes(orig, size) else AllZero(size)
    requires forall s :: 0 <= s < |size| ==> size[s] <= MAX_CLEN
    ensures !HasLong(size) && (CountOf(size, 8) == 256 ==> CountOf(size, 9) != 256)
    ensures if !SomeUsed(orig) || CountOf(size, 8) == 256 then AllZero(bits)
            else if CountOf(size, 9) == 256 then OneShort(bits)
            else bits == counts && Limitable(bits, MAX_CLEN)
    ensures NoneLong(bits) || Limitable(bits, MAX_CLEN)
    ensures !SomeUsed(orig) ==> CountOf(size, 8) != 256 && CountOf(size, 9) != 256
  {
    hide Sum, CompleteSizes, CountOf, Space, Complete, SomeUsed, Counted, Limitable;
    assert size[..|size|] == size;
    if !SomeUsed(orig) {
      NoneCounted(size, counts);
    } else {
      CountsAreComplete(orig, size, counts);
      CountedSum(counts, size);
      CountNonzeroAtMost(size);
      CrowdedCases(counts, bits);
      CountedAt(counts, size);
    }
  }

  lemma CountedAt(counts: seq<nat>, size: seq<nat>)
    requires Counted(counts, size, |size|)
    ensures |counts| == MAX_CLEN + 1 && counts[8] == CountOf(size, 8) && counts[9] == CountOf(size, 9)
  {
    assert size[..|size|] == size;
  }

  /** Counts that fill the code space lose words in bytes in two cases only. */
  lemma CrowdedCases(counts: seq<nat>, bits: seq<nat>)
    requires Complete(counts, MAX_CLEN) && Sum(counts) <= 257 && Wrapped(bits, counts)
    ensures |counts| == |bits| == MAX_CLEN + 1 && (counts[8] == BYTE ==> counts[9] != BYTE)
    ensures if counts[8] == BYTE then AllZero(bits)
            else if counts[9] == BYTE then OneShort(bits)
            else bits == counts && Limitable(bits, MAX_CLEN)
  {
    hide Sum, Space;
    if l :| 0 <= l < |counts| && counts[l] >= BYTE {
      CrowdedOnly(counts, l);
    } else {
      assert bits == counts;
    }
  }

  lemma NoneCounted(size: seq<nat>, counts: seq<nat>)
    requires AllZero(size) && Counted(counts, size, |size|)
    ensures AllZero(counts) && forall l :: 1 <= l <= MAX_CLEN ==> CountOf(size, l) == 0
  {
    assert size[..|size|] == size;
    forall l | 1 <= l <= MAX_CLEN
      ensures CountOf(size, l) == 0
    {
      NoneOf(size, l);
    }
  }

  lemma {:induction false} NoneOf(size: seq<nat>, l: nat)
    requires AllZero(size) && 1 <= l
    ensures CountOf(size, l) == 0
  {
    if size != [] {
      NoneOf(size[..|size| - 1], l);
    }
  }

  lemma {:induction false} CountNonzeroAtMost(s: seq<nat>)
    ensures CountNonzero(s) <= |s|
  {
    if s != [] {
      CountNonzeroAtMost(s[..|s| - 1]);
    }
  }

  /** Lengths that fill the code space leave one to take the pseudo-symbol from. */
  lemma SomethingLeft(bits: seq<nat>)
    ensures Limitable(bits, MAX_BITS) || (OneShort(bits) && |bits| > MAX_BITS) ==>
              exists l :: 0 <= l <= MAX_BITS && l < |bits| && bits[l] != 0
  {
    if Limitable(bits, MAX_BITS) {
      SomeLength(bits, MAX_BITS);
    } else if OneShort(bits) && |bits| > MAX_BITS {
      assert bits[1] != 0;
    }
  }

  /** With 256 words of 9 bits the table counts no symbol at all, although it lists 256. */
  lemma EmptyTable(orig: seq<nat>, size: seq<nat>, counts: seq<nat>, limited: seq<nat>, t: HuffTable, last: nat)
    requires CountsOk(orig) && CompleteSizes(orig, size) && Counted(counts, size, |size|)
    requires forall s :: 0 <= s < |size| ==> size[s] <= MAX_CLEN
    requires CountOf(size, 9) == 256 && OneShort(limited) && last < |limited| == MAX_CLEN + 1 && limited[last] != 0
    requires t.bits == limited[last := limited[last] - 1][..MAX_BITS + 1]
    requires |t.huffval| == CountUpTo(size[..256], MAX_CLEN)
    ensures !GoodTable(orig, size, t, last)
  {
    hide Sum, CompleteSizes, CountOf, Counted, Complete, CountUpTo, Ordered;
    PseudoSymbolSize(orig, size);
    ListedCount(counts, size);
    SumOfZeros(t.bits);
    ManyCounted(counts, size);
  }

  lemma ManyCounted(counts: seq<nat>, size: seq<nat>)
    requires Counted(counts, size, |size|) && CountOf(size, 9) == 256
    ensures Sum(counts) >= 256
  {
    assert size[..|size|] == size;
    TermAtMostSum(counts, 9);
  }

  /** Otherwise it is as it should be. */
  lemma FullTable(orig: seq<nat>, size: seq<nat>, counts: seq<nat>, limited: seq<nat>, t: HuffTable, last: nat)
    requires CountsOk(orig) && CompleteSizes(orig, size) && Counted(counts, size, |size|)
    requires forall s :: 0 <= s < |size| ==> size[s] <= MAX_CLEN
    requires Limitable(limited, MAX_BITS) && Sum(limited) == Sum(counts) && last <= MAX_BITS && |limited| == MAX_CLEN + 1
    requires limited[last] != 0 && forall l :: last < l <= MAX_BITS ==> limited[l] == 0
    requires t.bits == limited[last := limited[last] - 1][..MAX_BITS + 1] && Ordered(size, t.huffval)
    requires |t.huffval| == CountUpTo(size[..256], MAX_CLEN)
    requires |size| == SYMBOLS && forall s :: s in t.huffval <==> 0 <= s < 256 && size[s] != 0
    ensures GoodTable(orig, size, t, last)
  {
    hide Sum, CompleteSizes, CountOf, Counted, CountUpTo, Ordered, Space, SpaceTerms16;
    PseudoSymbolSize(orig, size);
    ListedCount(counts, size);
    assert Complete(limited, last);
    FinalSpace(limited, last);
  }

  lemma CountedSum(bits: seq<nat>, size: seq<nat>)
    requires Counted(bits, size, |size|)
    ensures Sum(bits) == CountNonzero(size)
  {
    assert size[..|size|] == size;
  }
}
