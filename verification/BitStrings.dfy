/** Bit strings read most significant bit first, with zero bits without end behind them. */
module BitStrings {
  import opened Powers

  type Bits = seq<bool>

  function BitAt(bs: Bits, i: nat): nat {
    if i < |bs| && bs[i] then 1 else 0
  }

  /** What is left when n bits have been read. */
  function Drop(bs: Bits, n: nat): Bits {
    if n <= |bs| then bs[n..] else []
  }

  /** The number in the first n bits. */
  function Peek(bs: Bits, n: nat): nat {
    if n == 0 then 0 else 2 * Peek(bs, n - 1) + BitAt(bs, n - 1)
  }

  /** The lowest n bits of c. */
  function WordBits(c: nat, n: nat): (w: Bits)
    ensures |w| == n
    decreases n
  {
    if n == 0 then [] else WordBits(c / 2, n - 1) + [c % 2 == 1]
  }

  lemma {:induction false} PeekBound(bs: Bits, n: nat)
    ensures Peek(bs, n) < Pow2(n)
  {
    if n > 0 {
      PeekBound(bs, n - 1);
    }
  }

  lemma {:induction false} PeekSplit(bs: Bits, m: nat, n: nat)
    ensures Peek(bs, m + n) == Peek(bs, m) * Pow2(n) + Peek(Drop(bs, m), n)
    decreases n
  {
    if n > 0 {
      PeekSplit(bs, m, n - 1);
      DoubleProduct(Peek(bs, m), Pow2(n - 1));
      assert BitAt(Drop(bs, m), n - 1) == BitAt(bs, m + n - 1);
    }
  }

  lemma DoubleProduct(x: int, p: int)
    ensures x * (2 * p) == 2 * (x * p)
    ensures (x + 1) * p == x * p + p
  {
  }

  /** A word is read back from in front of any bits. */
  lemma {:induction false} PeekWord(c: nat, n: nat, rest: Bits)
    requires c < Pow2(n)
    ensures Peek(WordBits(c, n) + rest, n) == c
    ensures Drop(WordBits(c, n) + rest, n) == rest
    decreases n
  {
    if n > 0 {
      var all, tail := WordBits(c, n) + rest, [c % 2 == 1] + rest;
      assert all == WordBits(c / 2, n - 1) + tail;
      PeekWord(c / 2, n - 1, tail);
      assert all[n - 1] == (c % 2 == 1);
    }
  }

  /** The first l bits of a longer word. */
  lemma PeekPrefix(bs: Bits, l: nat, n: nat)
    requires l <= n
    ensures Peek(bs, l) * Pow2(n - l) <= Peek(bs, n) < (Peek(bs, l) + 1) * Pow2(n - l)
  {
    hide Peek, Pow2;
    PeekSplit(bs, l, n - l);
    PeekBound(Drop(bs, l), n - l);
    DoubleProduct(Peek(bs, l), Pow2(n - l));
  }

  /** Appending n bits to a word: shifted up, the word does not touch them. */
  lemma {:induction false} WordAppend(h: nat, l: nat, m: nat, n: nat)
    requires l < Pow2(n)
    ensures WordBits(h * Pow2(n) + l, m + n) == WordBits(h, m) + WordBits(l, n)
    decreases n
  {
    hide WordBits, Pow2;
    WordEnds(h, l, m);
    if n > 0 {
      LowestBit(h, l, n);
      WordAppend(h, l / 2, m, n - 1);
      WordSteps(h * Pow2(n) + l, m + n);
      WordSteps(l, n);
    }
  }

  lemma WordEnds(h: nat, l: nat, m: nat)
    ensures l < Pow2(0) ==> l == 0 && WordBits(h * Pow2(0) + l, m) == WordBits(h, m)
    ensures WordBits(l, 0) == []
  {
    assert h * 1 == h;
  }

  lemma NoWordBits(w: nat)
    ensures WordBits(w, 0) == []
  {
  }

  lemma WordSteps(c: nat, n: nat)
    requires 0 < n
    ensures WordBits(c, n) == WordBits(c / 2, n - 1) + [c % 2 == 1]
  {
  }

  lemma LowestBit(h: nat, l: nat, n: nat)
    requires 0 < n
    ensures (h * Pow2(n) + l) / 2 == h * Pow2(n - 1) + l / 2
    ensures (h * Pow2(n) + l) % 2 == l % 2
    ensures l < Pow2(n) ==> l / 2 < Pow2(n - 1)
  {
    hide Pow2;
    DoublePower(n - 1);
    MulAssoc(h, 2, Pow2(n - 1));
    HalfOfSum(h * Pow2(n - 1), l);
  }

  lemma HalfOfSum(x: int, l: nat)
    ensures (2 * x + l) / 2 == x + l / 2 && (2 * x + l) % 2 == l % 2
  {
  }

  /** Bits above the n lowest do not matter. */
  lemma {:induction false} StaleBits(h: nat, x: nat, n: nat)
    ensures WordBits(h * Pow2(n) + x, n) == WordBits(x, n)
    decreases n
  {
    hide WordBits, Pow2;
    if n > 0 {
      LowestBit(h, x, n);
      StaleBits(h, x / 2, n - 1);
      WordSteps(h * Pow2(n) + x, n);
      WordSteps(x, n);
    } else {
      WordEnds(h, h * Pow2(n) + x, 0);
      WordEnds(h, x, 0);
    }
  }

  /** Nor does cutting a word down to m bits, m at least n. */
  lemma WrappedBits(c: nat, n: nat, m: nat)
    requires n <= m
    ensures WordBits(c % Pow2(m), n) == WordBits(c, n)
  {
    hide WordBits, Pow2;
    DivMod(c, Pow2(m));
    Pow2Add(m - n, n);
    MulAssoc(c / Pow2(m), Pow2(m - n), Pow2(n));
    MulSign(c / Pow2(m), Pow2(m - n));
    StaleBits(c / Pow2(m) * Pow2(m - n), c % Pow2(m), n);
  }

  /** A word split after its n lowest bits. */
  lemma WordSplit(c: nat, m: nat, n: nat)
    ensures WordBits(c, m + n) == WordBits(ShiftRight(c, n), m) + WordBits(c, n)
  {
    hide WordBits, Pow2;
    DivMod(c, Pow2(n));
    WordAppend(ShiftRight(c, n), c % Pow2(n), m, n);
    WrappedBits(c, n, n);
  }
}
