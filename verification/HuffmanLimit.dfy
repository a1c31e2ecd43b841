/** Counts of code lengths, and the adjustment that brings every length down to 16 bits. */
module HuffmanLimit {
  import opened Powers
  import opened HuffmanOptimality

  const MAX_CLEN := 32
  const MAX_BITS := 16

  /** bits[l] * 2^(32 - l): the code space that each length takes. */
  ghost function SpaceTerms(bits: seq<nat>): (t: seq<int>)
    requires |bits| == MAX_CLEN + 1
    ensures |t| == |bits|
  {
    seq(|bits|, l requires 0 <= l < |bits| => bits[l] * Pow2(MAX_CLEN - l))
  }

  ghost function Space(bits: seq<nat>): int
    requires |bits| == MAX_CLEN + 1
  {
    Sum(SpaceTerms(bits))
  }

  lemma SpaceChange(bits: seq<nat>, l: nat, d: int)
    requires |bits| == MAX_CLEN + 1 && l < |bits| && 0 <= bits[l] + d
    ensures Space(bits[l := bits[l] + d]) == Space(bits) + d * Pow2(MAX_CLEN - l)
    ensures Sum(bits[l := bits[l] + d]) == Sum(bits) + d
  {
    hide Sum, Pow2;
    var x, p := bits[l] + d, Pow2(MAX_CLEN - l);
    MulSign(x, p);
    SumUpdate(SpaceTerms(bits), l, x * p);
    assert SpaceTerms(bits[l := x]) == SpaceTerms(bits)[l := x * p];
    MulPlus(bits[l], d, p);
    SumUpdate(bits, l, x);
  }

  /** The longest length in use is at most i, and the lengths fill the code space. */
  ghost predicate Complete(bits: seq<nat>, i: nat) {
    && |bits| == MAX_CLEN + 1 && i <= MAX_CLEN
    && Space(bits) == Pow2(MAX_CLEN)
    && bits[0] == 0
    && forall l :: i < l <= MAX_CLEN ==> bits[l] == 0
  }

  /** The space of all lengths below i is a multiple of the space of two words of length i. */
  lemma {:induction false} BelowIsEven(bits: seq<nat>, i: nat, n: nat) returns (k: int)
    requires |bits| == MAX_CLEN + 1 && 1 <= i <= MAX_CLEN && n <= i
    ensures Sum(SpaceTerms(bits)[..n]) == k * (2 * Pow2(MAX_CLEN - i))
  {
    var t := SpaceTerms(bits);
    if n == 0 {
      k := 0;
    } else {
      var below := BelowIsEven(bits, i, n - 1);
      assert t[..n][..n - 1] == t[..n - 1];
      Pow2Add(MAX_CLEN - i + 1, i - n);
      k := below + bits[n - 1] * Pow2(i - n);
      EvenStep(below, bits[n - 1], Pow2(i - n), 2 * Pow2(MAX_CLEN - i));
    }
  }

  lemma EvenStep(below: int, b: int, q: int, p: int)
    ensures (below + b * q) * p == below * p + b * (p * q)
  {
  }

  lemma {:induction false} SumSplit(t: seq<int>, n: nat)
    requires n <= |t| && forall l :: n <= l < |t| ==> t[l] == 0
    ensures Sum(t) == Sum(t[..n])
    decreases |t|
  {
    if n == |t| {
      assert t[..n] == t;
    } else {
      SumSplit(t[..|t| - 1], n);
      assert t[..|t| - 1][..n] == t[..n];
    }
  }

  /** The longest words come in pairs. */
  lemma LongestIsEven(bits: seq<nat>, i: nat)
    requires Complete(bits, i) && 1 <= i
    ensures bits[i] % 2 == 0
  {
    hide Pow2;
    var t := SpaceTerms(bits);
    SumSplit(t, i + 1);
    assert t[..i + 1][..i] == t[..i];
    var k := BelowIsEven(bits, i, i);
    var p := Pow2(MAX_CLEN - i);
    Pow2Add(MAX_CLEN - i, i);
    Halves(MAX_CLEN + 1 - i);
    EvenCount(bits[i], k, p, Pow2(i - 1));
  }

  lemma EvenCount(b: int, k: int, p: int, h: int)
    requires 0 < p && k * (2 * p) + b * p == p * (2 * h)
    ensures b % 2 == 0
  {
    MulAssoc(k, 2, p);
    MulAssoc(h, 2, p);
    MulPlus(k * 2, b, p);
    Cancel(k * 2 + b, h * 2, p);
  }

  lemma {:induction false} SumAtMost(s: seq<int>, t: seq<int>)
    requires |s| == |t| && forall i :: 0 <= i < |s| ==> s[i] <= t[i]
    ensures Sum(s) <= Sum(t)
  {
    if s != [] {
      SumAtMost(s[..|s| - 1], t[..|t| - 1]);
    }
  }

  lemma LongWordSpace(b: nat, l: nat)
    requires MAX_BITS <= l <= MAX_CLEN
    ensures b * Pow2(MAX_CLEN - l) <= Pow2(16) * b
  {
    Pow2Monotone(MAX_CLEN - l, 16);
    MulMonotone(Pow2(MAX_CLEN - l), Pow2(16), b);
  }

  lemma LongWordsAreSmall(bits: seq<nat>)
    requires |bits| == MAX_CLEN + 1 && forall l :: 0 <= l < MAX_BITS ==> bits[l] == 0
    ensures Space(bits) <= Pow2(16) * Sum(bits)
  {
    hide Pow2, Sum;
    var limit := seq(|bits|, l requires 0 <= l < |bits| => Pow2(16) * bits[l]);
    forall l | 0 <= l < |bits|
      ensures SpaceTerms(bits)[l] <= limit[l]
    {
      if l >= MAX_BITS {
        LongWordSpace(bits[l], l);
      }
    }
    SumAtMost(SpaceTerms(bits), limit);
    SumScale(bits, limit, Pow2(16));
  }

  /** At most 257 words cannot all be 16 bits long or longer. */
  lemma ShortWordExists(bits: seq<nat>, i: nat)
    requires Complete(bits, i) && MAX_BITS < i && Sum(bits) <= 257
    ensures exists j :: 1 <= j <= i - 2 && bits[j] != 0
  {
    hide Sum, Space, Pow2;
    if forall j :: 1 <= j <= i - 2 ==> bits[j] == 0 {
      LongWordsAreSmall(bits);
      Pow2Values();
      Pow2Add(16, 16);
    }
  }

  /** The last length at or below `from` that is in use. */
  function LastInUse(bits: seq<nat>, from: nat): (j: nat)
    requires from < |bits|
    ensures j <= from && (0 < j ==> bits[j] != 0)
    ensures forall l :: j < l <= from ==> bits[l] == 0
  {
    if from == 0 || bits[from] != 0 then from else LastInUse(bits, from - 1)
  }

  /** Two words of length i become one of length i - 1, and one of length j two of length j + 1. */
  ghost function Shortened(bits: seq<nat>, i: nat, j: nat): (b: seq<nat>)
    requires |bits| == MAX_CLEN + 1 && 1 <= j <= i - 2 && i <= MAX_CLEN && 2 <= bits[i] && 1 <= bits[j]
    ensures |b| == |bits|
  {
    var b1 := bits[i := bits[i] - 2];
    var b2 := b1[i - 1 := b1[i - 1] + 1];
    var b3 := b2[j + 1 := b2[j + 1] + 2];
    b3[j := b3[j] - 1]
  }

  lemma Halves(l: nat)
    requires 1 <= l <= MAX_CLEN
    ensures Pow2(MAX_CLEN - (l - 1)) == 2 * Pow2(MAX_CLEN - l)
  {
    assert MAX_CLEN - (l - 1) == MAX_CLEN - l + 1;
  }

  /** The adjustment keeps the number of words and the space they take. */
  lemma ShortenedKeeps(bits: seq<nat>, i: nat, j: nat)
    requires Complete(bits, i) && 1 <= j <= i - 2 && 2 <= bits[i] && 1 <= bits[j]
    ensures Complete(Shortened(bits, i, j), i) && Sum(Shortened(bits, i, j)) == Sum(bits)
    ensures Shortened(bits, i, j)[i] == bits[i] - 2
  {
    hide Space, Sum, Pow2;
    ShortenedSums(bits, i, j, Shortened(bits, i, j));
  }

  lemma ShortenedSums(bits: seq<nat>, i: nat, j: nat, after: seq<nat>)
    requires |bits| == MAX_CLEN + 1 && 1 <= j <= i - 2 && i <= MAX_CLEN && 2 <= bits[i] && 1 <= bits[j]
    requires after == Shortened(bits, i, j)
    ensures Space(after) == Space(bits) && Sum(after) == Sum(bits)
  {
    hide *;
    Halves(i);
    Halves(j + 1);
    var b1 := Changed(bits, i, -2);
    var b2 := Changed(b1, i - 1, 1);
    var b3 := Changed(b2, j + 1, 2);
    var b4 := Changed(b3, j, -1);
    ShortenedIs(bits, i, j);
  }

  lemma ShortenedIs(bits: seq<nat>, i: nat, j: nat)
    requires |bits| == MAX_CLEN + 1 && 1 <= j <= i - 2 && i <= MAX_CLEN && 2 <= bits[i] && 1 <= bits[j]
    ensures var b1 := bits[i := bits[i] - 2];
            var b2 := b1[i - 1 := b1[i - 1] + 1];
            var b3 := b2[j + 1 := b2[j + 1] + 2];
            Shortened(bits, i, j) == b3[j := b3[j] - 1]
  {
  }

  /** The counts with one of them changed. */
  lemma Changed(bits: seq<nat>, l: nat, d: int) returns (b: seq<nat>)
    requires |bits| == MAX_CLEN + 1 && l < |bits| && 0 <= bits[l] + d
    ensures b == bits[l := bits[l] + d]
    ensures Space(b) == Space(bits) + d * Pow2(MAX_CLEN - l) && Sum(b) == Sum(bits) + d
  {
    hide *;
    SpaceChange(bits, l, d);
    b := bits[l := bits[l] + d];
  }

  /** What the longest length's last word gives up. */
  lemma WithoutLast(bits: seq<nat>, i: nat)
    requires Complete(bits, i) && 1 <= i && bits[i] != 0
    ensures Space(bits[i := bits[i] - 1]) == Pow2(MAX_CLEN) - Pow2(MAX_CLEN - i)
    ensures Sum(bits[i := bits[i] - 1]) == Sum(bits) - 1
  {
    hide Space, Sum, Pow2;
    SpaceChange(bits, i, -1);
  }

  /** A complete set of lengths is not empty. */
  lemma SomeLength(bits: seq<nat>, i: nat)
    requires Complete(bits, i)
    ensures 1 <= LastInUse(bits, i) && Complete(bits, LastInUse(bits, i))
  {
    hide Sum, Pow2;
    if LastInUse(bits, i) == 0 {
      SumOfZeros(SpaceTerms(bits));
    }
  }

  // ---------------------------------------------------------------- counts that overflow a byte

  /** An unsigned byte holds at most 255 words of one length. */
  const BYTE := 0x100

  /** Some length has more words than a byte can count. */
  ghost predicate Crowded(bits: seq<nat>) {
    exists l :: 0 <= l < |bits| && bits[l] >= BYTE
  }

  /** No words take no space, and one word its own. */
  lemma FewWords(bits: seq<nat>, m: nat)
    requires |bits| == MAX_CLEN + 1 && Sum(bits) <= 1 && m < |bits| && (Sum(bits) == 1 ==> bits[m] >= 1)
    ensures Space(bits) == if Sum(bits) == 1 then Pow2(MAX_CLEN - m) else 0
    ensures forall l :: 0 <= l < |bits| && (l != m || Sum(bits) == 0) ==> bits[l] == 0
    ensures Sum(bits) == 1 ==> bits[m] == 1
  {
    hide Sum, Pow2, Space;
    var none := if Sum(bits) == 1 then bits[m := bits[m] - 1] else bits;
    if Sum(bits) == 1 {
      SpaceChange(bits, m, -1);
    }
    SumNonNegative(bits);
    NoWords(none);
    assert Sum(bits) == 1 ==> none[m] == bits[m] - 1;
    assert forall l :: 0 <= l < |bits| && (l != m || Sum(bits) == 0) ==> none[l] == bits[l];
  }

  lemma NoWords(bits: seq<nat>)
    requires |bits| == MAX_CLEN + 1 && Sum(bits) == 0
    ensures Space(bits) == 0 && forall l :: 0 <= l < |bits| ==> bits[l] == 0
  {
    hide Sum;
    forall l | 0 <= l < |bits|
      ensures bits[l] == 0
    {
      TermAtMostSum(bits, l);
    }
    SumOfZeros(SpaceTerms(bits));
  }

  lemma {:induction false} SomeWord(bits: seq<nat>) returns (m: nat)
    requires Sum(bits) != 0
    ensures m < |bits| && bits[m] != 0
  {
    if bits[|bits| - 1] != 0 {
      m := |bits| - 1;
    } else {
      m := SomeWord(bits[..|bits| - 1]);
    }
  }

  /** Two powers that fill the space, or one that does. */
  lemma PowersFill(a: nat, b: nat)
    requires a <= 40
    ensures Pow2(a) == Pow2(32) ==> a == 32
    ensures Pow2(a) + Pow2(b) == Pow2(32) && b <= 31 ==> a == 31 && b == 31
    ensures Pow2(a) <= Pow2(32) ==> a <= 32
  {
    hide Pow2;
    DoublePower(31);
    DoublePower(32);
    DoublePower(30);
    Pow2Positive(b);
    Pow2Positive(30);
    if a <= 31 {
      Pow2Monotone(a, 31);
    } else if a > 32 {
      Pow2Monotone(33, a);
    }
    if b <= 31 {
      Pow2Monotone(b, 31);
    }
    if a <= 30 {
      Pow2Monotone(a, 30);
    }
    if b <= 30 {
      Pow2Monotone(b, 30);
    }
  }

  lemma Pow2Positive(n: nat)
    ensures 0 < Pow2(n)
  {
    Pow2Monotone(0, n);
  }

  /**
   At most 257 words that fill the code space overflow a byte in two ways only: 256 words of 8 bits, or
   one of 1 bit and 256 of 9.
   */
  lemma CrowdedOnly(bits: seq<nat>, l: nat)
    requires Complete(bits, MAX_CLEN) && Sum(bits) <= 257 && l < |bits| && bits[l] >= BYTE
    ensures bits[l] == BYTE && (l == 8 || (l == 9 && bits[1] == 1))
    ensures forall k :: 0 <= k < |bits| && k != l && !(l == 9 && k == 1) ==> bits[k] == 0
  {
    hide Sum, Pow2, Space;
    var rest := bits[l := bits[l] - BYTE];
    SpaceChange(bits, l, -BYTE);
    SumNonNegative(rest);
    SpaceNonNegative(rest);
    Pow2Values();
    Pow2Add(8, MAX_CLEN - l);
    assert BYTE * Pow2(MAX_CLEN - l) == Pow2(40 - l);
    var m: nat := 0;
    if Sum(rest) == 1 {
      m := SomeWord(rest);
      assert m != 0;
    }
    FewWords(rest, m);
    PowersFill(40 - l, MAX_CLEN - m);
    assert forall k :: 0 <= k < |bits| && k != l ==> rest[k] == bits[k];
  }

  lemma SpaceNonNegative(bits: seq<nat>)
    requires |bits| == MAX_CLEN + 1
    ensures 0 <= Space(bits)
  {
    forall l | 0 <= l < |bits|
      ensures 0 <= SpaceTerms(bits)[l]
    {
      MulSign(bits[l], Pow2(MAX_CLEN - l));
    }
    SumNonNegative(SpaceTerms(bits));
  }

  /** While some word is longer than 9 bits no count overflows. */
  lemma NotCrowded(bits: seq<nat>, k: nat)
    requires Complete(bits, MAX_CLEN) && Sum(bits) <= 257 && 9 < k < |bits| && bits[k] != 0
    ensures !Crowded(bits)
  {
    if l :| 0 <= l < |bits| && bits[l] >= BYTE {
      CrowdedOnly(bits, l);
    }
  }
}
