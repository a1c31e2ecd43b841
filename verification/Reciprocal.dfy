/** Division by multiplication with a reciprocal (compute_reciprocal and quantize of jcdctmgr.c). */
module Reciprocal {
  import opened Powers

  /** The divisor table entry of one coefficient; shift counts from the upper half of a product. */
  datatype Divisor = Divisor(recip: nat, corr: nat, shift: int)

  /** flss: the number of significant bits, by binary search. */
  method Flss(val: nat) returns (bit: nat)
    requires val < 0x1_0000
    ensures val == 0 ==> bit == 0
    ensures val != 0 ==> 1 <= bit <= 16 && Pow2(bit - 1) <= val < Pow2(bit)
  {
    bit := 16;
    if val == 0 {
      return 0;
    }
    Pow2Values();
    var v := val;
    ghost var scale := 1;
    if v / 0x100 == 0 {
      bit := bit - 8;
      v := v * 0x100;
      scale := 0x100;
    }
    if v / 0x1000 == 0 {
      bit := bit - 4;
      v := v * 0x10;
      scale := scale * 0x10;
    }
    if v / 0x4000 == 0 {
      bit := bit - 2;
      v := v * 4;
      scale := scale * 4;
    }
    if v / 0x8000 == 0 {
      bit := bit - 1;
      v := v * 2;
      scale := scale * 2;
    }
    SmallPowers();
    assert Pow2(bit) * scale == 0x1_0000;
  }

  lemma SmallPowers()
    ensures Pow2(0) == 1 && Pow2(1) == 2 && Pow2(2) == 4 && Pow2(3) == 8 && Pow2(4) == 16 && Pow2(5) == 32
    ensures Pow2(6) == 64 && Pow2(7) == 128 && Pow2(8) == 256 && Pow2(9) == 512 && Pow2(10) == 1024
    ensures Pow2(11) == 2048 && Pow2(12) == 4096 && Pow2(13) == 8192 && Pow2(14) == 16384
    ensures Pow2(15) == 32768 && Pow2(16) == 65536
  {
    Pow2Values();
    assert Pow2(4) == 16;
    assert Pow2(9) == 2 * Pow2(8) && Pow2(10) == 2 * Pow2(9);
    assert Pow2(12) == 2 * Pow2(11) && Pow2(13) == 2 * Pow2(12) && Pow2(14) == 2 * Pow2(13);
    assert Pow2(15) == 2 * Pow2(14);
  }

  /** What division by d rounds to: halves away from zero. */
  function Rounded(x: nat, d: nat): int
    requires 0 < d
  {
    (x + d / 2) / d
  }

  /** What quantize computes for a magnitude with one divisor entry, for words of `w` bits. */
  function Scaled(e: Divisor, w: nat, x: nat): int
    requires 0 <= e.shift + w
  {
    (x + e.corr) * e.recip / Pow2(e.shift + w)
  }

  /** The entry divides exactly like d, within the range of a word, and fits into words. */
  ghost predicate Divides(e: Divisor, w: nat, d: nat)
    requires 0 < d
  {
    && e.recip < Pow2(w) && e.corr < Pow2(w) && 0 <= e.shift + w
    && forall x: nat :: x + d / 2 < Pow2(w) ==> Scaled(e, w, x) == Rounded(x, d)
  }

  lemma DownIdentity(q: int, d: int, m: int, f: int, fr: int)
    ensures (q * d + m + 1) * f * d
         == q * (f * d + fr) * d + (m + 1) * (f * d + fr) - (q * d + m + 1) * fr
  {
  }

  lemma UpIdentity(q: int, d: int, m: int, f: int, e: int)
    ensures (q * d + m) * f * d == q * (f * d - e) * d + m * (f * d - e) + (q * d + m) * e
  {
  }

  /** y * d lies in [base * d, (base + p) * d). */
  lemma ScaledBounds(y: int, base: int, p: int, d: int, excess: int)
    requires 0 < d && y * d == base * d + excess && 0 <= excess < p * d
    ensures base <= y < base + p
  {
    assert (y - base) * d == excess;
    assert (y - base - p) * d == excess - p * d;
  }

  /** A reciprocal f rounded down by fr/d is made up for by counting one more. */
  lemma RoundedDown(n: nat, d: nat, f: nat, fr: nat, p: nat)
    requires 0 < d && p == f * d + fr && 0 < fr && (n + 1) * fr <= p
    ensures (n + 1) * f / p == n / d
  {
    var q, m := n / d, n % d;
    assert n == q * d + m;
    DownIdentity(q, d, m, f, fr);
    MulMonotone(m + 1, d, p);
    MulMonotone(1, m + 1, p);
    MulMonotone(1, n + 1, fr);
    ScaledBounds((n + 1) * f, q * p, p, d, (m + 1) * p - (n + 1) * fr);
    assert (q + 1) * p == q * p + p;
    FloorIs((n + 1) * f, p, q);
  }

  /** A reciprocal f rounded up by e/d is small enough an error. */
  lemma RoundedUp(n: nat, d: nat, f: nat, e: nat, p: nat)
    requires 0 < d && p == f * d - e && n * e < p
    ensures n * f / p == n / d
  {
    var q, m := n / d, n % d;
    assert n == q * d + m;
    UpIdentity(q, d, m, f, e);
    MulMonotone(m + 1, d, p);
    assert (m + 1) * p == m * p + p;
    ScaledBounds(n * f, q * p, p, d, m * p + n * e);
    assert (q + 1) * p == q * p + p;
    FloorIs(n * f, p, q);
  }

  /** Only powers of two divide a power of two. */
  lemma {:induction false} PowerOfTwoDivisor(f: nat, d: nat, r: nat) returns (t: nat)
    requires f * d == Pow2(r)
    ensures d == Pow2(t)
    decreases r, d
  {
    if d % 2 == 0 {
      assert d > 0 && f * (d / 2) * 2 == Pow2(r) by { assert d == 2 * (d / 2); }
      if r > 0 {
        t := PowerOfTwoDivisor(f, d / 2, r - 1);
        t := t + 1;
      }
    } else if r > 0 {
      if f % 2 == 1 {
        OddTimesOdd(f, d);
      }
      assert f == 2 * (f / 2);
      assert f / 2 * d == Pow2(r - 1);
      t := PowerOfTwoDivisor(f / 2, d, r - 1);
    } else {
      t := 0;
      UnitProduct(f, d);
    }
  }

  lemma OddTimesOdd(f: nat, d: nat)
    requires d % 2 == 1 && f % 2 == 1
    ensures f * d % 2 == 1
  {
    var i, j := f / 2, d / 2;
    assert f == 2 * i + 1 && d == 2 * j + 1;
    assert f * d == 2 * (2 * i * j + i + j) + 1;
  }

  lemma UnitProduct(f: nat, d: nat)
    requires f * d == 1
    ensures d == 1
  {
    if d > 1 {
      MulMonotone(1, f, d);
    }
  }

  /** The exact case: the divisor is a power of two. */
  lemma PowerOfTwoEntry(w: nat, b: nat)
    requires 1 <= w && 1 <= b < w
    ensures Divides(Divisor(Pow2(w - 1), Pow2(b) / 2, b - 1), w, Pow2(b))
  {
    var d, e := Pow2(b), Divisor(Pow2(w - 1), Pow2(b) / 2, b - 1);
    Pow2Monotone(b, w - 1);
    DoublePower(w - 1);
    Pow2Add(b, w - 1);
    forall x: nat | x + d / 2 < Pow2(w)
      ensures Scaled(e, w, x) == Rounded(x, d)
    {
      CommonFactor(x + d / 2, d, Pow2(w - 1));
    }
  }

  lemma CommonFactor(n: nat, d: nat, k: nat)
    requires 0 < d && 0 < k
    ensures n * k / (d * k) == n / d
  {
    var q := n / d;
    QuotientBounds(n, d);
    MulMonotone(q * d, n, k);
    MulMonotone(n + 1, (q + 1) * d, k);
    MulOneMore(n, k);
    MulAssoc(q, d, k);
    MulAssoc(q + 1, d, k);
    FloorIs(n * k, d * k, q);
  }

  /** A remainder of at most half: the reciprocal is rounded down. */
  lemma RoundedDownEntry(w: nat, d: nat, b: nat, fq: nat, fr: nat)
    requires b < w && Pow2(b) <= d < Pow2(b + 1) && 2 < d < Pow2(w)
    requires Pow2(w + b) == fq * d + fr && 0 < fr <= d / 2
    ensures Divides(Divisor(fq, d / 2 + 1, b), w, d)
  {
    var e := Divisor(fq, d / 2 + 1, b);
    Pow2Add(w, b);
    DoublePower(b);
    if fq >= Pow2(w) {
      MulMonotone(Pow2(w), fq, d);
      MulMonotone(Pow2(b), d, Pow2(w));
    }
    forall x: nat | x + d / 2 < Pow2(w)
      ensures Scaled(e, w, x) == Rounded(x, d)
    {
      var n := x + d / 2;
      MulMonotone(fr, Pow2(b), n + 1);
      MulMonotone(n + 1, Pow2(w), Pow2(b));
      RoundedDown(n, d, fq, fr, Pow2(w + b));
    }
  }

  /** A remainder of more than half: the reciprocal is rounded up. */
  lemma RoundedUpEntry(w: nat, d: nat, b: nat, fq: nat, fr: nat)
    requires b < w && Pow2(b) <= d < Pow2(b + 1) && 2 < d < Pow2(w)
    requires Pow2(w + b) == fq * d + fr && d / 2 < fr < d
    ensures Divides(Divisor(fq + 1, d / 2, b), w, d)
  {
    hide Pow2;
    var e := Divisor(fq + 1, d / 2, b);
    Pow2Add(w, b);
    DoublePower(b);
    RecipFits(fq, fr, d, Pow2(w), Pow2(b));
    forall x: nat | x + d / 2 < Pow2(w)
      ensures Scaled(e, w, x) == Rounded(x, d)
    {
      RoundedUpAt(x + d / 2, d, fq, fr, Pow2(w), Pow2(b));
    }
  }

  lemma RoundedUpAt(n: nat, d: nat, fq: nat, fr: nat, p: nat, q: nat)
    requires n < p && 0 < q && fr < d && d - fr <= q && p * q == fq * d + fr
    ensures p * q > 0 && n * (fq + 1) / (p * q) == n / d
  {
    MulMonotone(d - fr, q, n);
    MulMonotone(n + 1, p, q);
    assert (fq + 1) * d - (d - fr) == p * q;
    RoundedUp(n, d, fq + 1, d - fr, p * q);
  }

  lemma RecipFits(fq: nat, fr: nat, d: nat, p: nat, q: nat)
    requires p * q == fq * d + fr && 0 < fr < d && q <= d < p
    ensures fq + 1 < p
  {
    if fq + 1 >= p {
      if fq >= p {
        MulMonotone(p, fq, d);
        MulMonotone(q, d, p);
      } else {
        assert (p - 1) * d == p * d - d;
        assert p * (d - q) == d - fr;
        if d > q {
          MulMonotone(1, d - q, p);
        }
      }
    }
  }

  method QuotientAndRemainder(v: nat, d: nat) returns (q: nat, r: nat)
    requires 0 < d
    ensures v == q * d + r && r < d
  {
    DivMod(v, d);
    q, r := v / d, v % d;
  }

  /** compute_reciprocal, for words of `w` bits: the divisions it enables are exact. */
  method ComputeReciprocal(w: nat, divisor: nat) returns (e: Divisor)
    requires 1 <= w && 0 < divisor < 0x1_0000 && divisor < Pow2(w)
    ensures Divides(e, w, divisor)
  {
    hide Pow2, Divides;
    if divisor == 1 {
      IdentityEntry(w);
      return Divisor(1, 0, 0 - w);
    }
    var bits := Flss(divisor);
    var b := bits - 1;
    BitsOfDivisor(w, divisor, b);
    var r := w + b;
    var fq, fr := QuotientAndRemainder(Pow2(r), divisor);
    var c := divisor / 2;
    if fr == 0 {
      ExactEntry(w, divisor, b, fq);
      fq := fq / 2;
      r := r - 1;
    } else {
      TwoDivides(divisor, r, fq, fr);
      if fr <= divisor / 2 {
        RoundedDownEntry(w, divisor, b, fq, fr);
        c := c + 1;
      } else {
        RoundedUpEntry(w, divisor, b, fq, fr);
        fq := fq + 1;
      }
    }
    e := Divisor(fq, c, r - w);
  }

  /** A divisor that divides a power of two is one, and half the quotient serves. */
  lemma ExactEntry(w: nat, divisor: nat, b: nat, fq: nat)
    requires 1 <= b < w && Pow2(b) <= divisor < Pow2(b + 1) && Pow2(w + b) == fq * divisor
    ensures Divides(Divisor(fq / 2, divisor / 2, b - 1), w, divisor)
  {
    hide Pow2, Divides;
    var t := PowerOfTwoDivisor(fq, divisor, w + b);
    SamePower(t, b);
    PowerOfTwoEntry(w, b);
    HalfQuotient(w, b, fq);
  }

  /** Divisor 1 leaves every value as it is. */
  lemma IdentityEntry(w: nat)
    requires 1 <= w
    ensures Divides(Divisor(1, 0, 0 - w), w, 1)
  {
    DoublePower(w - 1);
  }

  lemma BitsOfDivisor(w: nat, d: nat, b: nat)
    requires 1 < d < Pow2(w) && Pow2(b) <= d < Pow2(b + 1)
    ensures 1 <= b < w
  {
    if b >= w {
      Pow2Monotone(w, b);
    }
  }

  lemma TwoDivides(d: nat, r: nat, fq: nat, fr: nat)
    requires 1 < d && 1 <= r && Pow2(r) == fq * d + fr && 0 < fr < d
    ensures 2 < d
  {
    hide Pow2;
    DoublePower(r - 1);
    assert 2 * Pow2(r - 1) != 2 * fq + 1;
  }

  lemma SamePower(t: nat, b: nat)
    requires Pow2(b) <= Pow2(t) < Pow2(b + 1)
    ensures t == b
  {
    if t < b {
      Pow2Monotone(t + 1, b);
    } else if b < t {
      Pow2Monotone(b + 1, t);
    }
  }

  lemma HalfQuotient(w: nat, b: nat, fq: nat)
    requires 1 <= w && fq * Pow2(b) == Pow2(w + b)
    ensures fq / 2 == Pow2(w - 1)
  {
    hide Pow2;
    Pow2Add(w, b);
    DoublePower(w - 1);
    Cancel(fq, Pow2(w), Pow2(b));
  }

  /** |x| / d rounded half away from zero, with the sign of x. */
  function Quantized(x: int, d: nat): int
    requires 0 < d
  {
    if x < 0 then -Rounded(-x, d) else Rounded(x, d)
  }

  /**
   quantize: for words of `w` bits every workspace value, however large, is divided by its divisor
   and rounded; `entries` is what compute_reciprocal made of `divisors`.
   */
  method Quantize(w: nat, coefBlock: array<int>, entries: seq<Divisor>, workspace: array<int>, ghost divisors: seq<nat>)
    requires 1 <= w && coefBlock != workspace
    requires |divisors| == |entries| == coefBlock.Length == workspace.Length
    requires forall i :: 0 <= i < |divisors| ==> 0 < divisors[i] < Pow2(w) && Divides(entries[i], w, divisors[i])
    requires forall i :: 0 <= i < workspace.Length ==>
               0 <= workspace[i] + Pow2(w - 1) < Pow2(w)
    modifies coefBlock
    ensures forall i :: 0 <= i < coefBlock.Length ==> coefBlock[i] == Quantized(workspace[i], divisors[i])
  {
    hide Pow2;
    DoublePower(w - 1);
    for i := 0 to workspace.Length
      invariant forall j :: 0 <= j < i ==> coefBlock[j] == Quantized(workspace[j], divisors[j])
    {
      var temp := workspace[i];
      var e := entries[i];
      if temp < 0 {
        temp := -temp;
        var product := (temp + e.corr) * e.recip;
        temp := product / Pow2(e.shift + w);
        temp := -temp;
      } else {
        var product := (temp + e.corr) * e.recip;
        temp := product / Pow2(e.shift + w);
      }
      coefBlock[i] := temp;
    }
  }

  /** start_pass_fdctmgr for the accurate integer DCT: divisors are the quantizer steps times 8. */
  method StartPass(w: nat, quantval: seq<nat>) returns (entries: seq<Divisor>)
    requires 16 <= w && forall i :: 0 <= i < |quantval| ==> 0 < quantval[i] * 8 < 0x1_0000
    ensures |entries| == |quantval|
    ensures forall i :: 0 <= i < |quantval| ==> Divides(entries[i], w, quantval[i] * 8)
  {
    hide Divides, Pow2;
    Pow2Values();
    Pow2Monotone(16, w);
    entries := [];
    for i := 0 to |quantval|
      invariant |entries| == i
      invariant forall j :: 0 <= j < i ==> Divides(entries[j], w, quantval[j] * 8)
    {
      var e := ComputeReciprocal(w, quantval[i] * 8);
      entries := entries + [e];
    }
  }
}
