/** The table made from symbol counts is one the derived-table builders accept. */
module HuffmanOptimalCodes {
  import opened Powers
  import opened HuffmanOptimality
  import opened HuffmanForest
  import opened HuffmanTable
  import opened HuffmanCodes
  import opened HuffmanBuilders

  /** Where a code begins depends on the codes before it only. */
  lemma {:induction false} StartPrefix(s: seq<nat>, t: seq<nat>, p: nat)
    requires Lengths(s) && Lengths(t) && p <= |s| && p <= |t| && s[..p] == t[..p]
    ensures Start(s, p) == Start(t, p)
  {
    if p > 0 {
      assert s[..p][..p - 1] == s[..p - 1] && t[..p][..p - 1] == t[..p - 1];
      assert s[..p][p - 1] == s[p - 1] && t[..p][p - 1] == t[p - 1];
      StartPrefix(s, t, p - 1);
    }
  }

  lemma {:induction false} StartOfRun(s: seq<nat>, l: nat, n: nat)
    requires Lengths(s) && Lengths(s + Times(l, n)) && 1 <= l <= MAX_LEN
    ensures Start(s + Times(l, n), |s| + n) == Start(s, |s|) + n * Pow2(MAX_LEN - l)
  {
    hide Pow2, Start;
    var t := s + Times(l, n);
    if n == 0 {
      StartPrefix(t, s, |s|);
    } else {
      var u := s + Times(l, n - 1);
      assert t[..|u|] == u;
      StartOfRun(s, l, n - 1);
      StartPrefix(t, u, |u|);
      StartNext(t, |u|);
      MulOneMore(n - 1, Pow2(MAX_LEN - l));
    }
  }

  lemma StartNext(s: seq<nat>, p: nat)
    requires Lengths(s) && p < |s|
    ensures Start(s, p + 1) == Start(s, p) + Pow2(MAX_LEN - s[p])
  {
  }

  /** The code space taken by lengths up to l, counted code by code and length by length. */
  lemma {:induction false} StartOfSizes(bits: Counts, l: nat)
    requires bits[0] == 0 && l <= MAX_LEN
    ensures Start(SizesUpTo(bits, l), |SizesUpTo(bits, l)|) == Sum(SpaceTerms16(bits)[..l + 1])
  {
    hide Pow2, Start, SpaceTerms16, Sum;
    TermAt(bits, l);
    SumSnoc(SpaceTerms16(bits)[..l + 1]);
    assert SpaceTerms16(bits)[..l + 1][..l] == SpaceTerms16(bits)[..l];
    if l == 0 {
      NothingStarted(bits);
    } else {
      StartOfSizes(bits, l - 1);
      StartOfRun(SizesUpTo(bits, l - 1), l, bits[l]);
    }
  }

  lemma {:induction false} SizesCount(bits: Counts, l: nat)
    requires bits[0] == 0 && l <= MAX_LEN
    ensures |SizesUpTo(bits, l)| == Sum(bits[..l + 1])
  {
    assert bits[..l + 1][..l] == bits[..l];
    if l > 0 {
      SizesCount(bits, l - 1);
    }
  }

  lemma TermAt(bits: Counts, l: nat)
    requires l <= MAX_LEN
    ensures SpaceTerms16(bits)[l] == bits[l] * Pow2(MAX_LEN - l)
    ensures bits[l] == 0 ==> SpaceTerms16(bits)[l] == 0
  {
  }

  lemma NothingStarted(bits: Counts)
    ensures SizesUpTo(bits, 0) == [] && Start(SizesUpTo(bits, 0), 0) == 0 == Sum(SpaceTerms16(bits)[..0])
  {
  }

  /**
   The finished table is accepted by both builders; exactly one code word of its greatest length
   stays free, and that is the word of all ones.
   */
  lemma OptimalTableAccepted(orig: seq<nat>, size: seq<nat>, t: HuffTable, last: nat, huffval: Values)
    requires GoodTable(orig, size, t, last)
    requires forall p :: 0 <= p < |t.huffval| && p < 256 ==> huffval[p] == t.huffval[p]
    ensures Accepted(Sizes(t.bits)) && |Sizes(t.bits)| == |t.huffval|
    ensures Start(Sizes(t.bits), |Sizes(t.bits)|) == CODE_SPACE - Pow2(MAX_LEN - last)
    ensures ValuesOk(huffval, |Sizes(t.bits)|, 255)
    ensures forall s :: 0 <= s < 256 ==>
              (orig[s] != 0 <==> exists p :: 0 <= p < |Sizes(t.bits)| && huffval[p] == s)
  {
    hide SizesUpTo, Start, Sum, SpaceTerms16, Pow2;
    StartOfSizes(t.bits, MAX_LEN);
    SizesCount(t.bits, MAX_LEN);
    assert SpaceTerms16(t.bits)[..MAX_LEN + 1] == SpaceTerms16(t.bits) && t.bits[..MAX_LEN + 1] == t.bits;
    Pow2Values();
    assert forall p, q :: 0 <= p < q < |t.huffval| ==> Precedes(size, t.huffval[p], t.huffval[q]);
    forall p | 0 <= p < |t.huffval|
      ensures t.huffval[p] < 256
    {
      assert t.huffval[p] in t.huffval;
    }
    DistinctBound(t.huffval, 256);
    forall s | 0 <= s < 256
      ensures orig[s] != 0 <==> exists p :: 0 <= p < |t.huffval| && huffval[p] == s
    {
      if orig[s] != 0 {
        var p :| 0 <= p < |t.huffval| && t.huffval[p] == s;
        assert huffval[p] == s;
      }
    }
  }

  /** So every symbol that was counted gets a code, and no other symbol does. */
  lemma CountedHaveCodes(orig: seq<nat>, size: seq<nat>, t: HuffTable, last: nat, huffval: Values, codes: seq<nat>,
                         c: CTable)
    requires GoodTable(orig, size, t, last) && |orig| == SYMBOLS && |t.bits| == MAX_LEN + 1
    requires forall p :: 0 <= p < |t.huffval| && p < 256 ==> huffval[p] == t.huffval[p]
    requires |codes| == |Sizes(t.bits)| <= 256 && Encodes(c, Sizes(t.bits), codes, huffval, |codes|)
    ensures forall s :: 0 <= s < 256 ==> (c.ehufsi[s] > 0 <==> orig[s] != 0)
  {
    hide SizesUpTo, Start, Sum, SpaceTerms16, Pow2, GoodTable;
    OptimalTableAccepted(orig, size, t, last, huffval);
    forall s | 0 <= s < 256
      ensures c.ehufsi[s] > 0 <==> orig[s] != 0
    {
      if p :| 0 <= p < |codes| && huffval[p] == s {
        assert c.ehufsi[huffval[p]] == Sizes(t.bits)[p] > 0;
      }
    }
  }
}
