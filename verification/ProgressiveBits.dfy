/** emit_bits of the progressive Huffman encoder: the valid bits stand on the left of a 24-bit field. */
module ProgressiveBits {
  import opened Powers
  import opened BitStrings
  import opened ByteStrings
  import opened MarkedBytes
  import opened BitWriting

  const FIELD := 24

  /** The n bits on the left of the field; what stands above the field is stale. */
  ghost function Held(w: nat, n: nat): (h: Bits)
    requires n <= FIELD
    ensures |h| == n
  {
    WordBits(ShiftRight(w, FIELD - n), n)
  }

  /** Nothing but the n bits and stale ones. */
  ghost predicate Aligned(w: nat, n: nat)
    requires n <= FIELD
  {
    w < Pow2(64) && w == ShiftRight(w, FIELD - n) * Pow2(FIELD - n)
  }

  lemma AlignedIs(w: nat, q: nat, n: nat)
    requires n <= FIELD && w == q * Pow2(FIELD - n) && w < Pow2(64)
    ensures Aligned(w, n) && Held(w, n) == WordBits(q, n)
  {
    hide Pow2, WordBits;
    MulOneMore(q, Pow2(FIELD - n));
    FloorIs(w, Pow2(FIELD - n), q);
  }

  /** New bits go in right behind the valid ones. */
  lemma Merged(w: nat, n: nat, code: nat, size: nat)
    requires n + size <= FIELD && Aligned(w, n)
    ensures var r := code % Pow2(size) * Pow2(FIELD - n - size) + w;
            0 <= r && Aligned(r, n + size) && Held(r, n + size) == Held(w, n) + WordBits(code, size)
  {
    hide Pow2, WordBits, ShiftRight;
    DivMod(code, Pow2(size));
    var q, low := ShiftRight(w, FIELD - n), code % Pow2(size);
    MergedValue(w, n, q, low, size);
    AlignedIs(low * Pow2(FIELD - n - size) + w, q * Pow2(size) + low, n + size);
    WordAppend(q, low, n, size);
    WrappedBits(code, size, size);
  }

  lemma MergedValue(w: nat, n: nat, q: nat, low: nat, size: nat)
    requires n + size <= FIELD && w == q * Pow2(FIELD - n) && w < Pow2(64) && low < Pow2(size)
    ensures var r := low * Pow2(FIELD - n - size) + w;
            0 <= r < Pow2(64) && r == (q * Pow2(size) + low) * Pow2(FIELD - n - size) && 0 <= q * Pow2(size)
  {
    hide Pow2;
    var e := FIELD - n - size;
    var p, u := Pow2(size), Pow2(e);
    Pow2Add(size, e);
    Pow2Add(40 + n, FIELD - n);
    MulAssoc(q, p, u);
    MulPlus(q * p, low, u);
    MulSign(q, p);
    MulSign(low, u);
    MulMonotone(low + 1, p, u);
    MulOneMore(low, u);
    Below(q, Pow2(40 + n), Pow2(FIELD - n), low * u);
  }

  /** Adding less than a unit does not pass the next multiple. */
  lemma Below(q: nat, m: nat, u: nat, low: nat)
    requires q * u < m * u && low < u
    ensures q * u + low < m * u
  {
    if q >= m {
      MulMonotone(m, q, u);
    }
    MulMonotone(q + 1, m, u);
    MulOneMore(q, u);
  }

  /** The byte on the left of the field, and what is left when it has been shifted out. */
  lemma NextByte(w: nat, n: nat)
    requires 8 <= n <= FIELD && Aligned(w, n)
    ensures var r := w * 0x100 % Pow2(64);
            0 <= r && Aligned(r, n - 8) && Held(w, n) == WordBits(ShiftRight(w, 16) % 0x100, 8) + Held(r, n - 8)
  {
    hide Pow2, WordBits, ShiftRight;
    var q := ShiftRight(w, FIELD - n);
    NextBits(q, n - 8);
    TopByte(w, q, n);
    ShiftedOut(w, q, n);
    AlignedIs(w * 0x100 % Pow2(64), q % Pow2(32 + n), n - 8);
    WrappedBits(q, n - 8, 32 + n);
  }

  /** w << 8 in a 64-bit word: the leading bits of the quotient are lost. */
  lemma ShiftedOut(w: nat, q: nat, n: nat)
    requires n <= FIELD && w == q * Pow2(FIELD - n)
    ensures w * 0x100 % Pow2(64) == q % Pow2(32 + n) * Pow2(32 - n)
    ensures 0 <= w * 0x100 % Pow2(64) < Pow2(64) && 0 <= q % Pow2(32 + n)
  {
    hide Pow2;
    var u, v, m := Pow2(FIELD - n), Pow2(32 - n), Pow2(32 + n);
    ShiftedPowers(n);
    DivMod(q, m);
    var a, b := q / m, q % m;
    MulAssoc(q, u, 0x100);
    MulPlus(a * m, b, v);
    MulAssoc(a, m, v);
    MulMonotone(b + 1, m, v);
    MulOneMore(b, v);
    MulSign(b, v);
    MulSign(a, m);
    Remainder(w * 0x100, a, Pow2(64), b * v);
  }

  lemma ShiftedPowers(n: nat)
    requires n <= FIELD
    ensures Pow2(FIELD - n) * 0x100 == Pow2(32 - n) && Pow2(32 + n) * Pow2(32 - n) == Pow2(64)
  {
    hide Pow2;
    Pow2Values();
    Pow2Add(FIELD - n, 8);
    Pow2Add(32 + n, 32 - n);
  }

  lemma Remainder(x: nat, a: nat, d: nat, r: nat)
    requires x == a * d + r && r < d
    ensures x % d == r
  {
    MulOneMore(a, d);
    FloorIs(x, d, a);
    DivMod(x, d);
  }

  lemma TopByte(w: nat, q: nat, n: nat)
    requires 8 <= n <= FIELD && w == q * Pow2(FIELD - n)
    ensures ShiftRight(w, 16) == ShiftRight(q, n - 8)
  {
    hide Pow2;
    var u, v := Pow2(FIELD - n), Pow2(n - 8);
    Pow2Add(n - 8, FIELD - n);
    DivMod(q, v);
    var h, l := q / v, q % v;
    MulPlus(h * v, l, u);
    MulAssoc(h, v, u);
    MulMonotone(l + 1, v, u);
    MulOneMore(l, u);
    MulSign(l, u);
    MulOneMore(h, Pow2(16));
    FloorIs(w, Pow2(16), h);
  }

  class BitEmitter {
    var putBuffer: nat      // bit-accumulation buffer
    var putBits: nat        // number of bits now in it
    var out: seq<Byte>      // the destination
    ghost var raw: seq<Byte>
    ghost var bits: Bits    // everything emitted

    ghost predicate Valid()
      reads this
    {
      && putBits < 8 && Aligned(putBuffer, putBits)
      && bits == ByteBits(raw) + Held(putBuffer, putBits) && out == Stuff(raw)
    }

    constructor ()
      ensures Valid() && bits == [] && raw == []
    {
      putBuffer, putBits, out, raw, bits := 0, 0, [], [], [];
      new;
      Pow2Values();
      AlignedIs(0, 0, 0);
    }

    /** emit_byte, with a zero byte stuffed behind 0xFF. */
    method EmitByte(c: Byte)
      requires out == Stuff(raw)
      modifies `out, `raw
      ensures out == Stuff(raw) && raw == old(raw) + [c]
    {
      StuffSnoc(raw, c);
      out := out + [c];
      if c == 0xFF {
        out := out + [0];
      }
      raw := raw + [c];
      assert out == old(out) + if c == 0xFF then [c, 0] else [c];
    }

    /** emit_bits: the low `size` bits of the code. */
    method EmitBits(code: nat, size: nat)
      requires Valid() && 0 < size <= 16
      modifies this
      ensures Valid() && bits == old(bits) + WordBits(code, size)
    {
      hide WordBits, ByteBits, Pow2, Stuff, ShiftRight, Held, Aligned;
      var pending: nat := putBits + size;
      Merged(putBuffer, putBits, code, size);
      var w: nat := code % Pow2(size) * Pow2(FIELD - pending) + putBuffer;
      Regroup(ByteBits(raw), Held(putBuffer, putBits), WordBits(code, size));
      bits := bits + WordBits(code, size);
      while pending >= 8
        invariant pending <= FIELD && Aligned(w, pending) && out == Stuff(raw)
        invariant bits == old(bits) + WordBits(code, size) == ByteBits(raw) + Held(w, pending)
      {
        var c := (ShiftRight(w, 16) % 0x100) as Byte;
        NextByte(w, pending);
        ByteBitsSnoc(raw, c);
        Regroup(ByteBits(raw), WordBits(c as int, 8), Held(w * 0x100 % Pow2(64), pending - 8));
        EmitByte(c);
        w := w * 0x100 % Pow2(64);
        pending := pending - 8;
      }
      putBuffer, putBits := w, pending;
    }

    /** flush_bits: any partial byte is filled up with ones. */
    method FlushBits() returns (ghost padding: nat)
      requires Valid()
      modifies this
      ensures Valid() && putBits == 0 && padding < 8
      ensures bits == old(bits) + OneBits(padding) && bits == ByteBits(raw)
    {
      hide WordBits, ByteBits, Pow2, Stuff, ShiftRight, Held, Aligned;
      ghost var before, held := bits, putBits;
      EmitBits(0x7F, 7);
      SevenOnes();
      padding := if held == 0 then 0 else 8 - held;
      WholeBytes(raw);
      WholeBytes(old(raw));
      HeldOnes(before, bits, ByteBits(raw), putBuffer, putBits, held);
      bits := before + OneBits(padding);
      putBuffer, putBits := 0, 0;
      Pow2Values();
      AlignedIs(0, 0, 0);
      NoWordBits(0);
      assert ByteBits(raw) + [] == ByteBits(raw);
    }
  }

  lemma {:induction false} WholeBytes(u: seq<Byte>)
    ensures |ByteBits(u)| % 8 == 0
  {
    hide WordBits;
    if u != [] {
      WholeBytes(u[..|u| - 1]);
    }
  }

  lemma SevenOnes()
    ensures WordBits(0x7F, 7) == OneBits(7)
  {
    Pow2Values();
    OnesWord(7);
  }

  /** Of seven ones, those that do not fill a byte are dropped again. */
  lemma HeldOnes(before: Bits, bits: Bits, sent: Bits, w: nat, n: nat, held: nat)
    requires bits == before + OneBits(7) && n < 8 && bits == sent + Held(w, n)
    requires held < 8 && |before| % 8 == held && |sent| % 8 == 0
    ensures sent == before + OneBits(if held == 0 then 0 else 8 - held)
  {
    hide Held;
    var padding := if held == 0 then 0 else 8 - held;
    PaddingIs(|before|, |sent|, n, held);
    assert |sent| == |before| + padding;
    assert sent == bits[..|sent|];
  }

  lemma PaddingIs(x: nat, y: nat, n: nat, held: nat)
    requires x % 8 == held && y % 8 == 0 && x + 7 == y + n && n < 8
    ensures y == x + if held == 0 then 0 else 8 - held
  {
  }
}
