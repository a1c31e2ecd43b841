/** What the limiting of code lengths keeps: short words are split only where the long ones need their space. */
module HuffmanShortest {
  import opened Powers
  import opened HuffmanOptimality
  import opened HuffmanLimit

  /** What a word of length k takes, beyond a word of 16 bits. */
  function Excess(k: nat): int
    requires k <= MAX_CLEN
  {
    Pow2(MAX_CLEN - k) - Pow2(MAX_CLEN - MAX_BITS)
  }

  /** The code space behind length l, less a word of 16 bits for each word there. */
  ghost function Spare(bits: seq<nat>, l: nat): int
    requires |bits| == MAX_CLEN + 1 && l <= MAX_CLEN
    decreases MAX_CLEN - l
  {
    if l == MAX_CLEN then 0 else bits[l + 1] * Excess(l + 1) + Spare(bits, l + 1)
  }

  /**
   Lengths whose followers fit into 16 bits as they are stay as they were; and where the counts up to a
   length have changed, one word more of that length would not leave the others room.
   */
  ghost predicate KeepsShort(orig: seq<nat>, bits: seq<nat>)
    requires |orig| == |bits| == MAX_CLEN + 1
  {
    forall l :: 0 <= l < MAX_BITS ==> KeepsUpTo(orig, bits, l)
  }

  ghost predicate KeepsUpTo(orig: seq<nat>, bits: seq<nat>, l: nat)
    requires |orig| == |bits| == MAX_CLEN + 1 && l < MAX_BITS
  {
    && (Spare(orig, l) >= 0 ==> bits[..l + 1] == orig[..l + 1])
    && (bits[..l + 1] == orig[..l + 1] || Spare(bits, l) < Excess(l))
  }

  lemma ExcessSign(k: nat)
    requires k <= MAX_CLEN
    ensures k < MAX_BITS ==> 0 < Excess(k)
    ensures k == MAX_BITS ==> Excess(k) == 0
    ensures MAX_BITS < k ==> Excess(k) < 0
    ensures k < MAX_CLEN ==> Excess(k) == 2 * Excess(k + 1) + Pow2(16)
  {
    hide Pow2;
    if k < MAX_CLEN {
      DoublePower(MAX_CLEN - (k + 1));
    }
    Pow2Positive(16);
    if k < MAX_BITS {
      DoublePower(16);
      Pow2Monotone(17, MAX_CLEN - k);
    } else if MAX_BITS < k {
      DoublePower(15);
      Pow2Positive(15);
      Pow2Monotone(MAX_CLEN - k, 15);
    }
  }

  lemma {:induction false} SpareChange(bits: seq<nat>, k: nat, d: int, l: nat)
    requires |bits| == MAX_CLEN + 1 && k <= MAX_CLEN && l <= MAX_CLEN && 0 <= bits[k] + d
    ensures Spare(bits[k := bits[k] + d], l) == Spare(bits, l) + if l < k then d * Excess(k) else 0
    decreases MAX_CLEN - l
  {
    hide Excess;
    if l < MAX_CLEN {
      SpareChange(bits, k, d, l + 1);
      if k == l + 1 {
        MulPlus(bits[k], d, Excess(k));
      }
    }
  }

  /** Words of 16 bits and more have nothing to spare. */
  lemma {:induction false} NothingToSpare(bits: seq<nat>, l: nat)
    requires |bits| == MAX_CLEN + 1 && l <= MAX_CLEN && forall k :: l < k < MAX_BITS ==> bits[k] == 0
    ensures Spare(bits, l) <= 0
    ensures forall k :: MAX_BITS < k <= MAX_CLEN && l < k && bits[k] != 0 ==> Spare(bits, l) < 0
    decreases MAX_CLEN - l
  {
    hide Excess;
    if l < MAX_CLEN {
      NothingToSpare(bits, l + 1);
      ExcessSign(l + 1);
      ProductSign(bits[l + 1], Excess(l + 1));
    }
  }

  lemma ProductSign(x: nat, y: int)
    ensures y <= 0 ==> x * y <= 0
    ensures y < 0 && x != 0 ==> x * y < 0
    ensures 0 <= y ==> 0 <= x * y
    ensures x == 0 ==> x * y == 0
  {
  }

  /** Counts that agree up to a length differ by as much behind it as they do in all. */
  lemma {:induction false} SameSpare(x: seq<nat>, y: seq<nat>, l: nat)
    requires |x| == |y| == MAX_CLEN + 1 && l <= MAX_CLEN && x[..l + 1] == y[..l + 1]
    ensures Spare(x, 0) - Spare(x, l) == Spare(y, 0) - Spare(y, l)
    decreases l
  {
    hide Excess;
    if l > 0 {
      assert x[..l + 1][..l] == x[..l] && y[..l + 1][..l] == y[..l] && x[..l + 1][l] == x[l] && y[..l + 1][l] == y[l];
      SameSpare(x, y, l - 1);
    }
  }

  /** What an adjustment does to what is spare. */
  lemma ShortenedSpare(bits: seq<nat>, i: nat, j: nat, l: nat)
    requires |bits| == MAX_CLEN + 1 && 1 <= j <= i - 2 && i <= MAX_CLEN && 2 <= bits[i] && 1 <= bits[j] && l <= j
    ensures Spare(Shortened(bits, i, j), l) == Spare(bits, l) + if l == j then Excess(j) else 0
  {
    hide Excess, Spare;
    var b1 := bits[i := bits[i] - 2];
    var b2 := b1[i - 1 := b1[i - 1] + 1];
    var b3 := b2[j + 1 := b2[j + 1] + 2];
    SpareChange(bits, i, -2, l);
    SpareChange(b1, i - 1, 1, l);
    SpareChange(b2, j + 1, 2, l);
    SpareChange(b3, j, -1, l);
    ExcessSign(i - 1);
    ExcessSign(j);
  }

  /** An adjustment that splits the longest word shorter than i - 1 keeps to it. */
  lemma ShortenedKeepsShort(orig: seq<nat>, bits: seq<nat>, i: nat, j: nat)
    requires |orig| == |bits| == MAX_CLEN + 1 && 1 <= j <= i - 2 && MAX_BITS < i <= MAX_CLEN
    requires 2 <= bits[i] && 1 <= bits[j] && forall k :: j < k <= i - 2 ==> bits[k] == 0
    requires KeepsShort(orig, bits) && Spare(orig, 0) == Spare(bits, 0)
    ensures KeepsShort(orig, Shortened(bits, i, j)) && Spare(orig, 0) == Spare(Shortened(bits, i, j), 0)
  {
    hide Excess, Spare;
    var after := Shortened(bits, i, j);
    ShortenedSpare(bits, i, j, 0);
    forall l | 0 <= l < MAX_BITS
      ensures KeepsUpTo(orig, after, l)
    {
      assert KeepsUpTo(orig, bits, l);
      if l < j {
        ShortenedSpare(bits, i, j, l);
        assert after[..l + 1] == bits[..l + 1];
      } else {
        NothingToSpare(bits, l);
        if bits[..l + 1] == orig[..l + 1] {
          SameSpare(bits, orig, l);
        }
        if l == j {
          ShortenedSpare(bits, i, j, l);
        } else {
          NothingToSpare(after, l);
          ExcessSign(l);
        }
      }
    }
  }

  lemma KeepsItself(bits: seq<nat>)
    requires |bits| == MAX_CLEN + 1
    ensures KeepsShort(bits, bits)
  {
  }

  /** Without long words everything fits as it is. */
  lemma {:induction false} SpareIsPositive(bits: seq<nat>, l: nat)
    requires |bits| == MAX_CLEN + 1 && l <= MAX_CLEN && forall k :: MAX_BITS < k <= MAX_CLEN ==> bits[k] == 0
    ensures 0 <= Spare(bits, l)
    decreases MAX_CLEN - l
  {
    hide Excess;
    if l < MAX_CLEN {
      SpareIsPositive(bits, l + 1);
      ExcessSign(l + 1);
      ProductSign(bits[l + 1], Excess(l + 1));
    }
  }

  /** Counts of the same space and number have the same to spare. */
  lemma {:induction false} SpareIsSpace(bits: seq<nat>, n: nat)
    requires |bits| == MAX_CLEN + 1 && n <= MAX_CLEN
    ensures Sum(SpaceTerms(bits)[..n + 1]) - Pow2(16) * Sum(bits[..n + 1]) + Spare(bits, n)
         == bits[0] * Excess(0) + Spare(bits, 0)
    decreases n
  {
    hide Pow2, Sum, SpaceTerms, Spare, Excess;
    var t := SpaceTerms(bits);
    assert t[..n + 1][..n] == t[..n] && bits[..n + 1][..n] == bits[..n];
    SumSnocTwice(t[..n + 1], bits[..n + 1]);
    TermIsExcess(bits, n);
    MulPlus(Sum(bits[..n]), bits[n], Pow2(16));
    if n > 0 {
      SpareIsSpace(bits, n - 1);
      SpareFrom(bits, n - 1);
    } else {
      NoSum(t[..0], bits[..0]);
    }
  }

  lemma TermIsExcess(bits: seq<nat>, n: nat)
    requires |bits| == MAX_CLEN + 1 && n <= MAX_CLEN
    ensures SpaceTerms(bits)[n] - Pow2(16) * bits[n] == bits[n] * Excess(n)
  {
    hide Pow2;
    MulMinus(Pow2(MAX_CLEN - n), Pow2(16), bits[n]);
  }

  lemma SpareFrom(bits: seq<nat>, l: nat)
    requires |bits| == MAX_CLEN + 1 && l < MAX_CLEN
    ensures Spare(bits, l) == bits[l + 1] * Excess(l + 1) + Spare(bits, l + 1)
  {
    hide Excess;
  }

  lemma SumSnocTwice(t: seq<int>, s: seq<nat>)
    requires t != [] && s != []
    ensures Sum(t) == Sum(t[..|t| - 1]) + t[|t| - 1] && Sum(s) == Sum(s[..|s| - 1]) + s[|s| - 1]
  {
  }

  lemma NoSum(t: seq<int>, s: seq<nat>)
    requires t == [] && s == []
    ensures Sum(t) == 0 && Sum(s) == 0
  {
  }

  /**
   No other way to bring the same number of words down to 16 bits keeps more short words: where it first
   differs it has fewer words of that length, or departs from counts that had not been changed.
   */
  lemma NoneKeepsMore(orig: seq<nat>, bits: seq<nat>, other: seq<nat>, l: nat)
    requires Complete(bits, MAX_BITS) && Complete(other, MAX_BITS) && Sum(other) == Sum(bits)
    requires |orig| == MAX_CLEN + 1 && KeepsShort(orig, bits) && l < MAX_BITS
    requires other[..l] == bits[..l] && other[l] != bits[l]
    ensures other[l] < bits[l] || bits[..l + 1] == orig[..l + 1]
  {
    hide Excess, Spare, Sum, Space, Pow2;
    if bits[..l + 1] != orig[..l + 1] && bits[l] < other[l] {
      assert KeepsUpTo(orig, bits, l);
      SpareInAll(bits);
      SpareInAll(other);
      var d: int := (bits[l] as int) - other[l];
      var level := other[l := other[l] + d];
      SpareChange(other, l, d, l);
      SpareIsPositive(other, l);
      SpareChange(other, l, d, 0);
      ExcessSign(l);
      MulMonotone(1, -d, Excess(l));
      MulNegated(d, Excess(l));
      assert level[..l + 1] == bits[..l + 1];
      SameSpare(level, bits, l);
    }
  }

  lemma SpareInAll(bits: seq<nat>)
    requires Complete(bits, MAX_BITS)
    ensures Spare(bits, 0) == Pow2(MAX_CLEN) - Pow2(16) * Sum(bits)
  {
    hide Excess, Sum, Pow2;
    SpareIsSpace(bits, MAX_CLEN);
    assert SpaceTerms(bits)[..MAX_CLEN + 1] == SpaceTerms(bits) && bits[..MAX_CLEN + 1] == bits;
  }
}
