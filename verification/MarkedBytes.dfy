/** The 64-bit test for 0xFF bytes in jchuff.c, and the bytes of a word. */
module MarkedBytes {
  import opened Powers
  import opened BitStrings
  import opened ByteStrings

  /** Bitwise conjunction. */
  function And(a: nat, b: nat): nat {
    if a == 0 || b == 0 then 0 else 2 * And(a / 2, b / 2) + a % 2 * (b % 2)
  }

  lemma AndBit(a: nat, x: nat, b: nat, y: nat)
    requires x < 2 && y < 2
    ensures And(2 * a + x, 2 * b + y) == 2 * And(a, b) + x * y
  {
    assert (2 * a + x) / 2 == a && (2 * b + y) / 2 == b && (2 * a + x) % 2 == x && (2 * b + y) % 2 == y;
  }

  /** Conjunction works separately on the low n bits and on the rest. */
  lemma {:induction false} AndSplit(a: nat, x: nat, b: nat, y: nat, n: nat)
    requires x < Pow2(n) && y < Pow2(n)
    ensures And(a * Pow2(n) + x, b * Pow2(n) + y) == And(a, b) * Pow2(n) + And(x, y)
    decreases n
  {
    hide And, Pow2;
    if n == 0 {
      WordEnds(a, x, 0);
      WordEnds(b, y, 0);
      AndZero(x, y);
      PowerZero();
    } else {
      LowestBit(a, x, n);
      LowestBit(b, y, n);
      AndSplit(a, x / 2, b, y / 2, n - 1);
      var p, q := a * Pow2(n - 1) + x / 2, b * Pow2(n - 1) + y / 2;
      AndBit(p, x % 2, q, y % 2);
      AndBit(x / 2, x % 2, y / 2, y % 2);
      DoublePower(n - 1);
      MulAssoc(a, 2, Pow2(n - 1));
      MulAssoc(b, 2, Pow2(n - 1));
      MulAssoc(And(a, b), 2, Pow2(n - 1));
    }
  }

  lemma AndZero(x: nat, y: nat)
    ensures x == 0 || y == 0 ==> And(x, y) == 0
  {
  }

  lemma PowerZero()
    ensures Pow2(0) == 1
  {
  }

  /** The high bit of a byte. */
  lemma AndHighBit(x: nat)
    requires x < 0x100
    ensures And(x, 0x80) == if x >= 0x80 then 0x80 else 0
  {
    var h, l := x / 0x80, x % 0x80;
    assert Pow2(7) == 0x80;
    AndSplit(h, l, 1, 0, 7);
    assert And(1, 1) == 1 && And(0, 1) == 0;
  }

  /** k times the byte 0x01. */
  function Ones(k: nat): nat {
    if k == 0 then 0 else 0x100 * Ones(k - 1) + 1
  }

  /** put_buffer & 0x80...80 & ~(put_buffer + 0x01...01), for words of k bytes. */
  function Test(w: nat, k: nat): nat {
    var m := Pow2(8 * k);
    ModBound(w + Ones(k), m);
    And(And(w, 0x80 * Ones(k)), m - 1 - (w + Ones(k)) % m)
  }

  lemma ModBound(x: nat, m: nat)
    requires 0 < m
    ensures 0 <= x % m < m
  {
  }

  /** The k bytes of a word, most significant byte first. */
  function WordBytes(w: nat, k: nat): (u: seq<Byte>)
    ensures |u| == k
    decreases k
  {
    if k == 0 then [] else WordBytes(w / 0x100, k - 1) + [(w % 0x100) as Byte]
  }

  lemma SumOfBytes(a: nat, y: nat, m: nat)
    requires 0 < m && y < 0x100
    ensures (0x100 * a + y) % (0x100 * m) == 0x100 * (a % m) + y
  {
    DivMod(a, m);
    var q, r := a / m, a % m;
    MulAssoc(0x100, q, m);
    assert 0x100 * a + y == q * (0x100 * m) + (0x100 * r + y) by {
      assert q * (0x100 * m) == 0x100 * (q * m);
    }
    FloorIs(0x100 * a + y, 0x100 * m, q) by {
      MulOneMore(q, 0x100 * m);
    }
    DivMod(0x100 * a + y, 0x100 * m);
  }

  /** One byte more below: its flag, and the test of the bytes above it. */
  lemma TestStep(w: nat, x: nat, k: nat)
    requires x < 0xFF
    ensures Test(0x100 * w + x, k + 1) == 0x100 * Test(w, k)
  {
    hide And, Pow2;
    var m, s := Pow2(8 * k), w + Ones(k);
    ByteMore(k);
    SumOfBytes(s, x + 1, m);
    ModBound(s, m);
    var low := if x >= 0x80 then 0x80 else 0;
    SplitByte(w, x, 0x80 * Ones(k), 0x80);
    AndHighBit(x);
    SplitByte(And(w, 0x80 * Ones(k)), low, m - 1 - s % m, 0xFE - x);
    NoFlag(x);
  }

  lemma ByteMore(k: nat)
    ensures Pow2(8 * (k + 1)) == 0x100 * Pow2(8 * k) && Ones(k + 1) == 0x100 * Ones(k) + 1
  {
    Pow2Add(8, 8 * k);
    Pow2Values();
  }

  lemma SplitByte(a: nat, x: nat, b: nat, y: nat)
    requires x < 0x100 && y < 0x100
    ensures And(0x100 * a + x, 0x100 * b + y) == 0x100 * And(a, b) + And(x, y)
  {
    Pow2Values();
    AndSplit(a, x, b, y, 8);
  }

  lemma NoFlag(x: nat)
    requires x < 0xFF
    ensures And(if x >= 0x80 then 0x80 else 0, 0xFE - x) == 0
  {
    AndZero(0, 0xFE - x);
    if x >= 0x80 {
      AndCommutes(0x80, 0xFE - x);
      AndHighBit(0xFE - x);
    }
  }

  lemma {:induction false} AndCommutes(a: nat, b: nat)
    ensures And(a, b) == And(b, a)
  {
    if a != 0 && b != 0 {
      AndCommutes(a / 2, b / 2);
    }
  }

  /** A 0xFF byte is flagged, whatever lies above it. */
  lemma TestMarked(w: nat, k: nat)
    ensures Test(0x100 * w + 0xFF, k + 1) != 0
  {
    hide And, Pow2;
    var m, s := Pow2(8 * k), w + Ones(k);
    ByteMore(k);
    SumOfBytes(s + 1, 0, m);
    ModBound(s + 1, m);
    SplitByte(w, 0xFF, 0x80 * Ones(k), 0x80);
    AndHighBit(0xFF);
    SplitByte(And(w, 0x80 * Ones(k)), 0x80, m - 1 - (s + 1) % m, 0xFF);
    AndCommutes(0x80, 0xFF);
  }

  /** The test is exact: it finds a 0xFF byte if and only if there is one. */
  lemma {:induction false} TestFindsMarks(w: nat, k: nat)
    requires w < Pow2(8 * k)
    ensures Test(w, k) != 0 <==> 0xFF in WordBytes(w, k)
    decreases k
  {
    hide Test;
    if k == 0 {
      NothingToTest();
    } else {
      var h, x := w / 0x100, w % 0x100;
      ByteMore(k - 1);
      TestFindsMarks(h, k - 1);
      assert w == 0x100 * h + x;
      if x == 0xFF {
        TestMarked(h, k - 1);
      } else {
        TestStep(h, x, k - 1);
      }
    }
  }

  lemma NothingToTest()
    ensures Test(0, 0) == 0
  {
  }

  /** The constants of the 64-bit test. */
  lemma TestConstants()
    ensures Ones(8) == 0x0101_0101_0101_0101 && 0x80 * Ones(8) == 0x8080_8080_8080_8080
    ensures Pow2(64) == 0x1_0000_0000_0000_0000
  {
    assert Ones(1) == 1 && Ones(2) == 0x101 && Ones(4) == 0x101_0101;
    assert Ones(6) == 0x0101_0101_0101;
    Pow2Values();
    Pow2Add(16, 16);
    Pow2Add(32, 32);
  }

  /** Bytes as bits. */
  ghost function ByteBits(u: seq<Byte>): Bits {
    if u == [] then [] else ByteBits(u[..|u| - 1]) + WordBits(u[|u| - 1] as int, 8)
  }

  lemma ByteBitsSnoc(u: seq<Byte>, b: Byte)
    ensures ByteBits(u + [b]) == ByteBits(u) + WordBits(b as int, 8)
  {
    assert (u + [b])[..|u|] == u;
  }

  lemma {:induction false} ByteBitsConcat(u: seq<Byte>, t: seq<Byte>)
    ensures ByteBits(u + t) == ByteBits(u) + ByteBits(t)
    decreases |t|
  {
    hide ByteBits;
    if t == [] {
      assert u + t == u && ByteBits(u) + [] == ByteBits(u);
      NoByteBits();
    } else {
      ByteBitsConcat(u, t[..|t| - 1]);
      OneByteMore(u, t[..|t| - 1], t[|t| - 1]);
      assert t == t[..|t| - 1] + [t[|t| - 1]];
    }
  }

  lemma NoByteBits()
    ensures ByteBits([]) == []
  {
  }

  lemma OneByteMore(u: seq<Byte>, s: seq<Byte>, b: Byte)
    requires ByteBits(u + s) == ByteBits(u) + ByteBits(s)
    ensures ByteBits(u + (s + [b])) == ByteBits(u) + ByteBits(s + [b])
  {
    hide ByteBits, WordBits;
    Regroup(u, s, [b]);
    ByteBitsSnoc(u + s, b);
    ByteBitsSnoc(s, b);
    Regroup(ByteBits(u), ByteBits(s), WordBits(b as int, 8));
  }

  lemma Regroup<T>(a: seq<T>, b: seq<T>, c: seq<T>)
    ensures a + b + c == a + (b + c)
  {
  }

  lemma {:induction false} WordBytesBits(w: nat, k: nat)
    ensures ByteBits(WordBytes(w, k)) == WordBits(w, 8 * k)
    decreases k
  {
    hide WordBits;
    if k == 0 {
      WordEnds(0, w, 0);
    } else {
      var h, x := w / 0x100, w % 0x100;
      WordBytesBits(h, k - 1);
      ByteBitsSnoc(WordBytes(h, k - 1), x as Byte);
      Pow2Values();
      WordAppend(h, x, 8 * (k - 1), 8);
      assert h * 0x100 + x == w;
    }
  }

  /** The byte that a right shift by 8 * j brings down. */
  lemma {:induction false} ShiftedByte(w: nat, k: nat, i: nat)
    requires i < k
    ensures WordBytes(w, k)[i] as int == ShiftRight(w, 8 * (k - 1 - i)) % 0x100
    decreases k
  {
    hide Pow2;
    if i < k - 1 {
      ShiftedByte(w / 0x100, k - 1, i);
      ShiftTwice(w, 8 * (k - 2 - i));
    } else {
      PowerZero();
    }
  }

  lemma ShiftTwice(w: nat, n: nat)
    ensures ShiftRight(w / 0x100, n) == ShiftRight(w, n + 8)
  {
    hide Pow2;
    var h, p := w / 0x100, Pow2(n);
    var q := ShiftRight(h, n);
    Pow2Add(n, 8);
    Pow2Values();
    MulAssoc(q, p, 0x100);
    MulAssoc(q + 1, p, 0x100);
    FloorIs(w, Pow2(n + 8), q);
  }
}
