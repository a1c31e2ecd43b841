/** Canonical Huffman codes (Figures C.1 and C.2 of ITU-T T.81) and the table builders that share them. */
module HuffmanCodes {
  import opened Powers

  const MAX_LEN := 16
  const CODE_SPACE := 0x1_0000

  /** BITS: how many codes there are of each length 1 to 16. */
  type Counts = b: seq<nat> | |b| == MAX_LEN + 1 witness seq(MAX_LEN + 1, _ => 0)

  function Times(l: nat, n: nat): (s: seq<nat>)
    ensures |s| == n && forall i :: 0 <= i < n ==> s[i] == l
  {
    seq(n, _ => l)
  }

  /** Figure C.1: the code lengths in order, for lengths up to l. */
  ghost function SizesUpTo(bits: Counts, l: nat): (s: seq<nat>)
    requires l <= MAX_LEN
    ensures forall i :: 0 <= i < |s| ==> 1 <= s[i] <= l
    ensures forall i, j :: 0 <= i < j < |s| ==> s[i] <= s[j]
  {
    if l == 0 then [] else SizesUpTo(bits, l - 1) + Times(l, bits[l])
  }

  ghost function Sizes(bits: Counts): (s: seq<nat>)
    ensures forall i :: 0 <= i < |s| ==> 1 <= s[i] <= MAX_LEN
    ensures forall i, j :: 0 <= i < j < |s| ==> s[i] <= s[j]
  {
    SizesUpTo(bits, MAX_LEN)
  }

  /** A list of lengths in ascending order. */
  ghost predicate Lengths(sizes: seq<nat>) {
    && (forall i :: 0 <= i < |sizes| ==> 1 <= sizes[i] <= MAX_LEN)
    && (forall i, j :: 0 <= i < j < |sizes| ==> sizes[i] <= sizes[j])
  }

  /** The code space that the first p codes take, in 16-bit words: where code p begins. */
  ghost function Start(sizes: seq<nat>, p: nat): nat
    requires Lengths(sizes) && p <= |sizes|
  {
    if p == 0 then 0 else Start(sizes, p - 1) + Pow2(MAX_LEN - sizes[p - 1])
  }

  lemma {:induction false} StartMonotone(sizes: seq<nat>, p: nat, q: nat)
    requires Lengths(sizes) && p <= q <= |sizes|
    ensures Start(sizes, p) <= Start(sizes, q)
    decreases q
  {
    if p < q {
      StartMonotone(sizes, p, q - 1);
    }
  }

  /** Code p, at its own length, is the beginning of its share of the code space. */
  ghost predicate IsCode(sizes: seq<nat>, p: nat, code: nat)
    requires Lengths(sizes) && p < |sizes|
  {
    code * Pow2(MAX_LEN - sizes[p]) == Start(sizes, p)
  }

  /** The code space is not used up: the all-ones word of every length stays free. */
  ghost predicate Accepted(sizes: seq<nat>) {
    Lengths(sizes) && |sizes| <= 256 && Start(sizes, |sizes|) < CODE_SPACE
  }

  lemma SizesStep(bits: Counts, l: nat)
    requires l <= MAX_LEN
    ensures SizesUpTo(bits, l) == if l == 0 then [] else SizesUpTo(bits, l - 1) + Times(l, bits[l])
    ensures 0 < l ==> |SizesUpTo(bits, l)| == |SizesUpTo(bits, l - 1)| + bits[l]
  {
  }

  /** Figure C.1, with the guard against more than 256 codes. */
  method MakeSizes(bits: Counts) returns (ok: bool, huffsize: seq<nat>)
    ensures ok <==> |Sizes(bits)| <= 256
    ensures ok ==> huffsize == Sizes(bits)
  {
    hide SizesUpTo, Times;
    SizesStep(bits, 0);
    huffsize := [];
    for l := 1 to MAX_LEN + 1
      invariant huffsize == SizesUpTo(bits, l - 1)
      invariant |huffsize| <= 256
    {
      SizesStep(bits, l);
      if |huffsize| + bits[l] > 256 {
        SizesGrow(bits, l, MAX_LEN);
        return false, huffsize;
      }
      var i := bits[l];
      while i > 0
        invariant i <= bits[l]
        invariant huffsize == SizesUpTo(bits, l - 1) + Times(l, bits[l] - i)
      {
        i := i - 1;
        huffsize := huffsize + [l];
      }
    }
    ok := true;
  }

  lemma {:induction false} SizesGrow(bits: Counts, l: nat, m: nat)
    requires l <= m <= MAX_LEN
    ensures |SizesUpTo(bits, l)| <= |SizesUpTo(bits, m)|
    decreases m
  {
    if l < m {
      SizesGrow(bits, l, m - 1);
    }
  }

  /** Figure C.2: refuses counts whose codes do not fit; otherwise every code is canonical. */
  method MakeCodes(huffsize: seq<nat>) returns (ok: bool, huffcode: seq<nat>)
    requires Lengths(huffsize)
    ensures ok <==> Start(huffsize, |huffsize|) < CODE_SPACE
    ensures ok ==> |huffcode| == |huffsize| && forall p :: 0 <= p < |huffcode| ==> IsCode(huffsize, p, huffcode[p])
  {
    huffcode := [];
    if huffsize == [] {
      return true, [];
    }
    var code, si, p := 0, huffsize[0], 0;
    ZeroStart(huffsize, si);
    while p < |huffsize|
      invariant p == |huffcode| <= |huffsize| && 1 <= si <= MAX_LEN + 1
      invariant p < |huffsize| ==> si <= huffsize[p]
      invariant p == |huffsize| ==> Start(huffsize, p) < CODE_SPACE
      invariant code * Pow2(MAX_LEN + 1 - si) == 2 * Start(huffsize, p)
      invariant forall q :: 0 <= q < p ==> IsCode(huffsize, q, huffcode[q])
      decreases MAX_LEN + 1 - si
    {
      code, huffcode, p := CodesOfLength(huffsize, code, si, huffcode);
      CodeFits(code, si, Start(huffsize, p));
      if code >= Pow2(si) {
        StartMonotone(huffsize, p, |huffsize|);
        return false, huffcode;
      }
      HalveScale(code, si);
      code := 2 * code;
      si := si + 1;
    }
    ok := true;
  }

  lemma ZeroStart(sizes: seq<nat>, si: nat)
    requires Lengths(sizes) && si <= MAX_LEN
    ensures 0 * Pow2(MAX_LEN + 1 - si) == 2 * Start(sizes, 0)
  {
  }

  lemma HalveScale(code: nat, si: nat)
    requires si <= MAX_LEN
    ensures 2 * code * Pow2(MAX_LEN - si) == code * Pow2(MAX_LEN + 1 - si)
  {
    hide Pow2;
    DoublePower(MAX_LEN - si);
    MulAssoc(code, 2, Pow2(MAX_LEN - si));
  }

  lemma CodeFits(code: nat, si: nat, start: nat)
    requires si <= MAX_LEN && code * Pow2(MAX_LEN + 1 - si) == 2 * start
    ensures code >= Pow2(si) <==> start >= CODE_SPACE
  {
    hide Pow2;
    Pow2Add(si, MAX_LEN - si);
    Pow2Values();
    HalveScale(code, si);
    var k := Pow2(MAX_LEN - si);
    assert code * k == start by { assert 2 * code * k == 2 * (code * k); }
    if code >= Pow2(si) {
      MulMonotone(Pow2(si), code, k);
    } else {
      MulMonotone(code + 1, Pow2(si), k);
      assert (code + 1) * k == start + k;
    }
  }

  /** The inner loop: consecutive codes of one length. */
  method CodesOfLength(huffsize: seq<nat>, code0: nat, si: nat, huffcode0: seq<nat>)
    returns (code: nat, huffcode: seq<nat>, p: nat)
    requires Lengths(huffsize) && |huffcode0| <= |huffsize| && 1 <= si <= MAX_LEN
    requires |huffcode0| < |huffsize| ==> si <= huffsize[|huffcode0|]
    requires code0 * Pow2(MAX_LEN + 1 - si) == 2 * Start(huffsize, |huffcode0|)
    requires forall q :: 0 <= q < |huffcode0| ==> IsCode(huffsize, q, huffcode0[q])
    ensures |huffcode0| <= p == |huffcode| <= |huffsize|
    ensures p < |huffsize| ==> si < huffsize[p]
    ensures code * Pow2(MAX_LEN + 1 - si) == 2 * Start(huffsize, p)
    ensures forall q :: 0 <= q < p ==> IsCode(huffsize, q, huffcode[q])
  {
    code, huffcode, p := code0, huffcode0, |huffcode0|;
    while p < |huffsize| && huffsize[p] == si
      invariant |huffcode0| <= p == |huffcode| <= |huffsize|
      invariant p < |huffsize| ==> si <= huffsize[p]
      invariant code * Pow2(MAX_LEN + 1 - si) == 2 * Start(huffsize, p)
      invariant forall q :: 0 <= q < p ==> IsCode(huffsize, q, huffcode[q])
    {
      NextCode(huffsize, p, code, si);
      huffcode := huffcode + [code];
      code := code + 1;
      p := p + 1;
    }
  }

  lemma NextCode(sizes: seq<nat>, p: nat, code: nat, si: nat)
    requires Lengths(sizes) && p < |sizes| && sizes[p] == si
    requires code * Pow2(MAX_LEN + 1 - si) == 2 * Start(sizes, p)
    ensures IsCode(sizes, p, code)
    ensures (code + 1) * Pow2(MAX_LEN + 1 - si) == 2 * Start(sizes, p + 1)
  {
    OneMore(code, Pow2(MAX_LEN - si), Start(sizes, p));
    assert Pow2(MAX_LEN + 1 - si) == 2 * Pow2(MAX_LEN - si);
  }

  lemma OneMore(code: nat, k: nat, start: nat)
    requires code * (2 * k) == 2 * start
    ensures code * k == start && (code + 1) * (2 * k) == 2 * (start + k)
  {
    assert code * (2 * k) == 2 * (code * k);
    assert (code + 1) * (2 * k) == code * (2 * k) + 2 * k;
  }
}
