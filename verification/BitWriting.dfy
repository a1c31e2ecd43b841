/** The bit buffer of the Huffman encoder: a 64-bit word, flushed to stuffed bytes when it is full. */
module BitWriting {
  import opened Powers
  import opened BitStrings
  import opened ByteStrings
  import opened MarkedBytes

  const BIT_BUF_SIZE := 64

  /** The 0xFF test of FLUSH. */
  predicate HasMark(w: nat) {
    ModBound(w + 0x0101_0101_0101_0101, 0x1_0000_0000_0000_0000);
    And(And(w, 0x8080_8080_8080_8080),
        0xFFFF_FFFF_FFFF_FFFF - (w + 0x0101_0101_0101_0101) % 0x1_0000_0000_0000_0000) != 0
  }

  lemma HasMarkIsExact(w: nat)
    requires w < Pow2(64)
    ensures HasMark(w) <==> 0xFF in WordBytes(w, 8)
  {
    hide And, WordBytes, Pow2, Ones;
    TestConstants();
    TestFindsMarks(w, 8);
  }

  /** Bytes without a 0xFF need no stuffing. */
  lemma {:induction false} StuffPlain(u: seq<Byte>, t: seq<Byte>)
    requires 0xFF !in t
    ensures Stuff(u + t) == Stuff(u) + t
    decreases |t|
  {
    hide Stuff;
    if t == [] {
      assert u + t == u;
    } else {
      var s, b := t[..|t| - 1], t[|t| - 1];
      StuffPlain(u, s);
      assert u + t == (u + s) + [b] && t == s + [b];
      StuffSnoc(u + s, b);
      Regroup(Stuff(u), s, [b]);
    }
  }

  /** `code >> n` after `put_buffer << m`: the vacated bits are zero, so disjunction is addition. */
  function Shifted(w: nat, m: nat, low: nat): (r: nat)
    ensures r < Pow2(64)
  {
    ModBound(w * Pow2(m) + low, Pow2(64));
    (w * Pow2(m) + low) % Pow2(64)
  }

  /** What the word holds after more bits have been put in. */
  lemma ShiftedBits(w: nat, n: nat, low: nat, m: nat)
    requires low < Pow2(m) && n + m <= 64
    ensures WordBits(Shifted(w, m, low), n + m) == WordBits(w, n) + WordBits(low, m)
  {
    hide WordBits, Pow2;
    WordAppend(w, low, n, m);
    MulSign(w, Pow2(m));
    WrappedBits(w * Pow2(m) + low, n + m, 64);
  }

  class BitWriter {
    var putBuffer: nat      // current bit accumulation buffer; bits above the valid ones are stale
    var freeBits: int       // number of bits available in it
    var out: seq<Byte>      // the destination
    ghost var closed: seq<Byte>  // what was written up to the last marker
    ghost var raw: seq<Byte>     // the bytes written since
    ghost var bits: Bits         // the bits put in since

    ghost predicate Valid()
      reads this
    {
      && 0 <= freeBits <= BIT_BUF_SIZE && putBuffer < Pow2(64)
      && bits == ByteBits(raw) + WordBits(putBuffer, BIT_BUF_SIZE - freeBits)
      && Stuffed()
    }

    /** Behind the last marker the destination holds stuffed bytes. */
    ghost predicate Stuffed()
      reads `out, `closed, `raw
    {
      out == closed + Stuff(raw)
    }

    constructor ()
      ensures Valid() && bits == [] && raw == [] && closed == []
    {
      putBuffer, freeBits, out, closed, raw, bits := 0, BIT_BUF_SIZE, [], [], [], [];
    }

    /** EMIT_BYTE */
    method EmitByte(b: Byte)
      requires Stuffed()
      modifies `out, `raw
      ensures Stuffed() && raw == old(raw) + [b]
    {
      StuffSnoc(raw, b);
      out := out + if b == 0xFF then [b, 0] else [b];
      raw := raw + [b];
    }

    /** FLUSH: the whole word, byte by byte only when one of them must be stuffed. */
    method FlushWord(w: nat)
      requires Stuffed() && w < Pow2(64)
      modifies `out, `raw
      ensures Stuffed() && raw == old(raw) + WordBytes(w, 8)
    {
      hide Stuff, WordBytes, HasMark, Pow2;
      ghost var u := WordBytes(w, 8);
      forall i | 0 <= i < 8
        ensures u[i] as int == ShiftRight(w, 56 - 8 * i) % 0x100
      {
        ShiftedByte(w, 8, i);
      }
      HasMarkIsExact(w);
      if HasMark(w) {
        for i := 0 to 8
          invariant Stuffed() && raw == old(raw) + u[..i]
        {
          EmitByte((ShiftRight(w, 56 - 8 * i) % 0x100) as Byte);
        }
      } else {
        for i := 0 to 8
          invariant out == old(out) + u[..i] && raw == old(raw)
        {
          out := out + [(ShiftRight(w, 56 - 8 * i) % 0x100) as Byte];
        }
        StuffPlain(raw, u);
        Regroup(closed, Stuff(raw), u);
        assert u[..8] == u;
        raw := raw + u;
      }
      assert u[..8] == u;
    }

    /** PUT_BITS */
    method PutBits(code: nat, size: nat)
      requires Valid() && code < Pow2(size) && size < BIT_BUF_SIZE
      modifies `putBuffer, `freeBits, `out, `raw, `bits
      ensures Valid() && bits == old(bits) + WordBits(code, size)
    {
      hide WordBits, ByteBits, Pow2, Stuff, Shifted;
      freeBits := freeBits - size;
      if freeBits < 0 {
        PutAndFlush(code, size);
      } else {
        ShiftedBits(putBuffer, BIT_BUF_SIZE - old(freeBits), code, size);
        Regroup(ByteBits(raw), WordBits(putBuffer, BIT_BUF_SIZE - old(freeBits)), WordBits(code, size));
        putBuffer := Shifted(putBuffer, size, code);
      }
      bits := bits + WordBits(code, size);
    }

    /** PUT_AND_FLUSH: fills the word with the leading bits of the code and keeps the others. */
    method PutAndFlush(code: nat, size: nat)
      requires code < Pow2(size) && size < BIT_BUF_SIZE && 0 <= size + freeBits && freeBits < 0
      requires Stuffed()
      modifies `putBuffer, `freeBits, `out, `raw
      ensures Stuffed() && putBuffer < Pow2(64) && freeBits == old(freeBits) + BIT_BUF_SIZE
      ensures ByteBits(raw) + WordBits(putBuffer, BIT_BUF_SIZE - freeBits)
           == ByteBits(old(raw)) + WordBits(old(putBuffer), BIT_BUF_SIZE - (size + old(freeBits))) + WordBits(code, size)
    {
      hide WordBits, ByteBits, Pow2, Stuff, Shifted, WordBytes;
      ghost var held, room, over := BIT_BUF_SIZE - (size + freeBits), size + freeBits, -freeBits;
      LeadingBits(code, room, over);
      ShiftedBits(putBuffer, held, ShiftRight(code, over), room);
      putBuffer := Shifted(putBuffer, size + freeBits, ShiftRight(code, -freeBits));
      FlushWord(putBuffer);
      WordBytesBits(putBuffer, 8);
      ByteBitsConcat(old(raw), WordBytes(putBuffer, 8));
      freeBits := freeBits + BIT_BUF_SIZE;
      putBuffer := code;
      Pow2Monotone(size, 64);
      FourParts(ByteBits(old(raw)), WordBits(old(putBuffer), held), WordBits(ShiftRight(code, over), room), WordBits(code, over));
    }

    /** flush_bits: the last partial byte is filled up with ones. */
    method FlushBits() returns (ghost padding: nat)
      requires Valid()
      modifies `putBuffer, `freeBits, `out, `raw, `bits
      ensures Valid() && freeBits == BIT_BUF_SIZE && padding < 8
      ensures bits == old(bits) + OneBits(padding) && bits == ByteBits(raw)
    {
      hide WordBits, ByteBits, Pow2, Stuff, ShiftRight;
      var putBits := BIT_BUF_SIZE - freeBits;
      padding := 0;
      while putBits >= 8
        invariant 0 <= putBits <= BIT_BUF_SIZE && Stuffed()
        invariant bits == old(bits) && putBuffer == old(putBuffer)
        invariant bits == ByteBits(raw) + WordBits(putBuffer, putBits)
      {
        putBits := putBits - 8;
        ghost var b := (ShiftRight(putBuffer, putBits) % 0x100) as Byte;
        NextBits(putBuffer, putBits);
        ByteBitsSnoc(raw, b);
        Regroup(ByteBits(raw), WordBits(b as int, 8), WordBits(putBuffer, putBits));
        EmitByte((ShiftRight(putBuffer, putBits) % 0x100) as Byte);
      }
      if putBits > 0 {
        var b := LastByte(putBuffer, putBits);
        padding := 8 - putBits;
        ByteBitsSnoc(raw, b);
        Regroup(ByteBits(raw), WordBits(putBuffer, putBits), OneBits(padding));
        EmitByte(b);
      } else {
        NoWordBits(putBuffer);
        assert ByteBits(raw) + [] == ByteBits(raw) && bits + OneBits(0) == bits;
      }
      bits := bits + OneBits(padding);
      putBuffer, freeBits := 0, BIT_BUF_SIZE;
      NoWordBits(putBuffer);
      assert bits + [] == bits;
    }

    /** The two bytes of a marker, which are not stuffed, once all bits have been flushed. */
    method EmitMarker(code: Byte)
      requires Valid() && freeBits == BIT_BUF_SIZE
      modifies `out, `closed, `raw, `bits
      ensures Valid() && closed == old(closed) + Stuff(old(raw)) + [0xFF, code] && raw == [] && bits == []
    {
      hide ByteBits, WordBits;
      out := out + [0xFF];
      out := out + [code];
      closed := closed + Stuff(raw) + [0xFF, code];
      raw, bits := [], [];
      NoByteBits();
      NoWordBits(putBuffer);
      assert Stuff([]) == [] && closed + [] == closed && ByteBits([]) + [] == [];
    }

    /** (put_buffer << (8 - put_bits)) | (0xFF >> put_bits) */
    method LastByte(w: nat, n: nat) returns (b: Byte)
      requires 0 < n < 8
      ensures WordBits(b as int, 8) == WordBits(w, n) + OneBits(8 - n)
    {
      hide WordBits, Pow2, ShiftRight;
      OnesShifted(n);
      Pow2Values();
      OnesWord(8 - n);
      WordAppend(w, ShiftRight(0xFF, n), n, 8 - n);
      MulSign(w, Pow2(8 - n));
      WrappedBits(w * Pow2(8 - n) + ShiftRight(0xFF, n), 8, 8);
      b := ((w * Pow2(8 - n) + ShiftRight(0xFF, n)) % 0x100) as Byte;
    }
  }

  function OneBits(n: nat): (b: Bits)
    ensures |b| == n
  {
    seq(n, _ => true)
  }

  lemma NextBits(w: nat, n: nat)
    ensures WordBits(w, n + 8) == WordBits(ShiftRight(w, n) % 0x100, 8) + WordBits(w, n)
  {
    hide WordBits, ShiftRight, Pow2;
    WordSplit(w, 8, n);
    Pow2Values();
    WrappedBits(ShiftRight(w, n), 8, 8);
  }

  lemma OnesShifted(n: nat)
    requires n <= 8
    ensures ShiftRight(0xFF, n) == Pow2(8 - n) - 1
  {
    hide Pow2;
    var h, l := Pow2(8 - n), Pow2(n);
    Pow2Add(8 - n, n);
    Pow2Values();
    MulPlus(h, -1, l);
    FloorIs(0xFF, l, h - 1);
  }

  lemma {:induction false} OnesWord(n: nat)
    ensures WordBits(Pow2(n) - 1, n) == OneBits(n)
  {
    if n == 0 {
      NoWordBits(Pow2(0) - 1);
    } else {
      hide WordBits, Pow2;
      OnesWord(n - 1);
      DoublePower(n - 1);
      WordSteps(Pow2(n) - 1, n);
      assert OneBits(n) == OneBits(n - 1) + [true];
    }
  }

  /** A code cut in two: the bits that still fit, and the others. */
  lemma LeadingBits(code: nat, room: nat, over: nat)
    requires code < Pow2(room + over)
    ensures ShiftRight(code, over) < Pow2(room)
    ensures WordBits(code, room + over) == WordBits(ShiftRight(code, over), room) + WordBits(code, over)
  {
    hide Pow2, WordBits;
    WordSplit(code, room, over);
    Pow2Add(room, over);
    if ShiftRight(code, over) >= Pow2(room) {
      MulMonotone(Pow2(room), ShiftRight(code, over), Pow2(over));
    }
  }

  lemma FourParts(a: Bits, b: Bits, c: Bits, d: Bits)
    ensures a + (b + c) + d == a + b + (c + d)
  {
  }
}
