/** The arithmetic entropy encoder of jcarith.c: registers, carry resolution and byte output. */
module ArithEncoder {
  import opened Powers
  import opened ByteStrings
  import opened ProbabilityTable
  import opened RestartMarkers
  import opened IntervalCoding
  import opened CodePoints

  /**
   The register layout: `n` is the value of the `len` bytes that have left the C register,
   27 - ct bits of the low end are still in it, and it never grows past bit 27.
   */
  ghost predicate Layout(n: nat, len: nat, c: nat, a: nat, ct: nat, v: Interval)
  {
    && ct <= 11
    && a == v.size
    && v.low == n * Pow2(27 - ct) + c
    && v.shifts == 8 * len + 11 - ct
    && (c + a) * Pow2(ct) <= 0x900_0000
  }

  lemma LayoutAtStart()
    ensures Layout(0, 0, 0, 0x1_0000, 11, UNIT)
  {
    Pow2Values();
  }

  lemma NoneAfter(s: seq<Byte>, b: Byte)
    ensures s + Repeat(b, 0) == s
  {
  }

  lemma OneMoreAfter(s: seq<Byte>, b: Byte, n: nat)
    ensures s + Repeat(b, n) + [b] == s + Repeat(b, n + 1)
  {
  }

  lemma NothingStuffed()
    ensures Stuff([]) == [] && Value([]) == 0
  {
  }

  lemma LayoutSize(n: nat, len: nat, c: nat, a: nat, ct: nat, v: Interval)
    requires Layout(n, len, c, a, ct, v)
    ensures a == v.size
  {
  }

  lemma LayoutAfterShift(n: nat, len: nat, c: nat, a: nat, ct: nat, v: Interval)
    requires Layout(n, len, c, a, ct, v) && 1 <= ct
    ensures Layout(n, len, 2 * c, 2 * a, ct - 1, Doubled(v))
  {
    hide Pow2;
    DoublePower(27 - ct);
    DoublePower(ct - 1);
    MulAssoc(n, 2, Pow2(27 - ct));
    MulAssoc(c + a, 2, Pow2(ct - 1));
  }

  /** Narrowing the interval leaves the finished bytes alone. */
  lemma LayoutOfPart(n: nat, len: nat, c: nat, a: nat, ct: nat, v: Interval, qe: nat)
    requires Layout(n, len, c, a, ct, v) && qe <= a
    ensures Layout(n, len, c, a - qe, ct, Part(v, qe, false))
    ensures Layout(n, len, c + (a - qe), qe, ct, Part(v, qe, true))
    ensures WithinUnit(v) ==> WithinUnit(Part(v, qe, false)) && WithinUnit(Part(v, qe, true))
  {
    MulMonotone(c + (a - qe), c + a, Pow2(ct));
  }

  lemma LayoutAfterByte(n: nat, len: nat, c: nat, a: nat, v: Interval)
    requires Layout(n, len, c, a, 0, v) && a <= 0x1_0000
    ensures Layout(256 * n + c / 0x8_0000, len + 1, c % 0x8_0000, a, 8, v)
  {
    Pow2Values();
  }

  /** While no byte is held (`n` all ones) the register cannot carry. */
  lemma CarryNeedsHeldByte(n: nat, len: nat, c: nat, a: nat, ct: nat, v: Interval)
    requires Layout(n, len, c, a, ct, v) && WithinUnit(v)
    ensures (c + a) * Pow2(ct) <= 0x900_0000
    ensures n + 1 == Pow2(8 * len) ==> (c + a) * Pow2(ct) <= 0x800_0000
  {
    hide Pow2;
    if n + 1 == Pow2(8 * len) {
      Pow2Add(8 * len, 27 - ct);
      MulOneMore(n, Pow2(27 - ct));
      MulMonotone(c + a, Pow2(27 - ct), Pow2(ct));
      Pow2Add(27 - ct, ct);
      Pow2Values();
    }
  }

  /**
   A code that agrees with a point of the interval in the bits still to come is inside, when
   two bytes hold all of the register above bit 11.
   */
  lemma {:induction false} FinalCodeInside(u: seq<Byte>, n: nat, len: nat, c: nat, a: nat, ct: nat,
                                           v: Interval, point: nat)
    requires Layout(n, len, c, a, ct, v)
    requires c <= point < c + a && |u| <= len + 2
    requires CodeAt(u, len + 2) * 0x800 == n * 0x800_0000 + point * Pow2(ct)
    ensures Inside(u, v)
    decreases ct
  {
    if ct > 0 {
      hide Layout, Inside, CodeAt, Pow2;
      LayoutAfterShift(n, len, c, a, ct, v);
      DoublePower(ct - 1);
      MulAssoc(point, 2, Pow2(ct - 1));
      FinalCodeInside(u, n, len, 2 * c, 2 * a, ct - 1, Doubled(v), 2 * point);
      InsideDoubled(u, v);
    } else {
      FinalCodeAtByte(u, n, len, c, a, v, point);
    }
  }

  lemma FinalCodeAtByte(u: seq<Byte>, n: nat, len: nat, c: nat, a: nat, v: Interval, point: nat)
    requires Layout(n, len, c, a, 0, v)
    requires c <= point < c + a && |u| <= len + 2
    requires CodeAt(u, len + 2) * 0x800 == n * 0x800_0000 + point
    ensures Inside(u, v)
  {
    Pow2Values();
    assert BytesFor(v.shifts) == len + 4 && Slack(v.shifts) == 5 && Pow2(5) == 32;
    assert CodeAt(u, len + 4) == CodeAt(u, len + 2) * 0x1_0000;
  }

  /** The point with most trailing zero bits that finish_pass picks stays in the interval. */
  lemma FinalPoint(c: nat, a: nat)
    requires 0x8000 <= a && c + a < 0x1_0000_0000
    ensures var temp := (a - 1 + c) / 0x1_0000 % 0x1_0000 * 0x1_0000;
            var point := if temp < c then temp + 0x8000 else temp;
            c <= point < c + a && point % 0x8000 == 0
  {
    var x := a - 1 + c;
    var q := x / 0x1_0000;
    assert q * 0x1_0000 <= x < q * 0x1_0000 + 0x1_0000 && q < 0x1_0000;
    HalfUnits(2 * q);
    HalfUnits(2 * q + 1);
  }

  lemma HalfUnits(k: nat)
    ensures k * 0x8000 % 0x8000 == 0
  {
  }

  /** All that is left in the register once it is shifted out are a carry and two bytes. */
  lemma FinalBytes(r: nat)
    requires r % 0x800 == 0 && r < 0x900_0000
    ensures (r / 0x800_0000 % 0x20 != 0) == (r >= 0x800_0000)
    ensures r == (if r >= 0x800_0000 then 0x800_0000 else 0)
                 + r / 0x8_0000 % 0x100 * 0x8_0000 + r / 0x800 % 0x100 * 0x800
  {
    var k := r / 0x800;
    assert r == 0x800 * k && r / 0x8_0000 == k / 0x100;
  }

  lemma FinalShift(point: nat, a: nat, c: nat, ct: nat)
    requires point % 0x8000 == 0 && point < c + a && (c + a) * Pow2(ct) <= 0x900_0000
    ensures point * Pow2(ct) % 0x800 == 0 && point * Pow2(ct) < (c + a) * Pow2(ct)
  {
    hide Pow2;
    var k, p := point / 0x8000, Pow2(ct);
    MulAssoc(0x8000, k, p);
    MulSign(k, p);
    ManyZeroBits(k * p);
    MulOneMore(point, p);
    MulMonotone(point + 1, c + a, p);
  }

  lemma ManyZeroBits(x: nat)
    ensures 0x8000 * x % 0x800 == 0
  {
    assert 0x8000 * x == 0x800 * (16 * x);
  }

  /** A 0xFF byte is stacked, never held. */
  type Held = x: int | -1 <= x < 0xFF witness -1

  class Encoder {
    var c: nat            // base of the coding interval, spacer bits and next output byte
    var a: nat            // size of the coding interval
    var sc: nat           // stacked 0xFF bytes that a carry might still turn into zeros
    var zc: nat           // pending zero bytes that might be discarded at the end
    var ct: int           // shifts left until the next byte is complete
    var buffer: Held      // most recent output byte other than 0xFF, or -1
    var out: seq<Byte>    // the destination
    var stats: Statistics

    ghost var closed: seq<Byte>      // what was written up to the last marker
    ghost var emitted: seq<Byte>     // the output since, before byte stuffing
    ghost var log: seq<Decision>     // every decision coded since

    /** The bytes produced so far, in order, whether emitted or held back. */
    ghost function Logical(): seq<Byte>
      reads this`emitted, this`zc, this`buffer, this`sc
    {
      emitted + Repeat(0, zc) + (if buffer < 0 then [] else [buffer as Byte]) + Repeat(0xFF, sc)
    }

    /** Behind the last marker the destination holds stuffed bytes. */
    ghost predicate Stuffed()
      reads this`out, this`closed, this`emitted
    {
      out == closed + Stuff(emitted)
    }

    ghost predicate OutputOk()
      reads this`out, this`closed, this`emitted, this`zc, this`buffer
    {
      && Stuffed()
      && (buffer < 0 ==> emitted == [] && zc == 0)
      && (emitted != [] ==> emitted[|emitted| - 1] != 0)
    }

    /** Held-back bytes and register together are the exact low end of the interval. */
    ghost predicate Holds(v: Interval)
      reads this
    {
      OutputOk() && 0 <= ct && Layout(Value(Logical()), |Logical()|, c, a, ct, v)
    }

    ghost predicate Valid()
      reads this
    {
      var m := Run(log);
      Holds(m.interval) && 1 <= ct && stats == m.stats
    }

    constructor ()
      ensures Valid() && log == [] && out == [] && closed == []
    {
      hide Layout, Step;
      c, a, sc, zc, ct, buffer := 0, 0x1_0000, 0, 0, 11, -1;
      out, stats, closed, emitted, log := [], map[], [], [], [];
      new;
      LayoutAtStart();
    }

    method EmitStuffed(b: Byte)
      requires Stuffed()
      modifies this`out, this`emitted
      ensures Stuffed() && emitted == old(emitted) + [b]
    {
      StuffSnoc(emitted, b);
      out := out + [b];
      if b == 0xFF {
        out := out + [0];
      }
      emitted := emitted + [b];
    }

    method EmitPendingZeros()
      requires Stuffed()
      modifies this`out, this`emitted, this`zc
      ensures Stuffed() && zc == 0
      ensures emitted == old(emitted) + Repeat(0, old(zc))
    {
      hide Stuffed, Repeat;
      ghost var n := 0;
      NoneAfter(emitted, 0);
      while zc > 0
        invariant n + zc == old(zc)
        invariant Stuffed()
        invariant emitted == old(emitted) + Repeat(0, n)
      {
        OneMoreAfter(old(emitted), 0, n);
        EmitStuffed(0);
        zc := zc - 1;
        n := n + 1;
      }
    }

    method EmitStacked()
      requires Stuffed()
      modifies this`out, this`emitted, this`sc
      ensures Stuffed() && sc == 0
      ensures emitted == old(emitted) + Repeat(0xFF, old(sc))
    {
      hide Stuffed, Repeat;
      ghost var n := 0;
      NoneAfter(emitted, 0xFF);
      while sc > 0
        invariant n + sc == old(sc)
        invariant Stuffed()
        invariant emitted == old(emitted) + Repeat(0xFF, n)
      {
        OneMoreAfter(old(emitted), 0xFF, n);
        EmitStuffed(0xFF);
        sc := sc - 1;
        n := n + 1;
      }
    }

    /** No carry: the held byte and the stacked 0xFF bytes become final, zeros stay pending. */
    method ReleaseHeld()
      requires OutputOk()
      modifies this`out, this`emitted, this`zc, this`sc
      ensures Stuffed() && sc == 0
      ensures emitted + Repeat(0, zc) == old(Logical())
      ensures emitted != [] ==> emitted[|emitted| - 1] != 0
    {
      hide Stuff, Value, Repeat;
      ghost var pending := emitted + Repeat(0, zc);
      RepeatSnoc(0, zc);
      if buffer == 0 {
        zc := zc + 1;
      } else if buffer >= 0 {
        EmitPendingZeros();
        EmitStuffed(buffer as Byte);
      }
      assert emitted + Repeat(0, zc) == pending + if buffer < 0 then [] else [buffer as Byte];
      if sc != 0 {
        RepeatSnoc(0xFF, sc - 1);
        EmitPendingZeros();
        EmitStacked();
      }
    }

    /** A carry: the held byte grows by one and the stacked 0xFF bytes become pending zeros. */
    method PropagateCarry()
      requires OutputOk() && buffer >= 0
      modifies this`out, this`emitted, this`zc, this`sc
      ensures Stuffed() && sc == 0
      ensures Value(emitted + Repeat(0, zc)) == Value(old(Logical())) + 1
      ensures |emitted| + zc == |old(Logical())|
      ensures emitted != [] && emitted[|emitted| - 1] != 0
    {
      hide Stuff, Value, Repeat;
      ghost var pending := emitted + Repeat(0, zc);
      EmitPendingZeros();
      EmitStuffed((buffer + 1) as Byte);
      ValueSnoc(pending, (buffer + 1) as Byte);
      ValueSnoc(pending, buffer as Byte);
      CarryThroughOnes(pending + [(buffer + 1) as Byte], pending + [buffer as Byte], sc);
      zc := zc + sc;
      sc := 0;
    }

    method Hold(b: Byte)
      requires Stuffed() && sc == 0 && b < 0xFF
      requires emitted != [] ==> emitted[|emitted| - 1] != 0
      modifies this`buffer
      ensures OutputOk() && buffer == b as int
      ensures Logical() == emitted + Repeat(0, zc) + [b]
      ensures Value(Logical()) == 256 * Value(emitted + Repeat(0, zc)) + b as int
    {
      hide Stuff, Value;
      buffer := b as int;
      ValueSnoc(emitted + Repeat(0, zc), b);
      assert Logical() == emitted + Repeat(0, zc) + [b];
    }

    /** Takes the byte shifted out of the C register, with a carry in its bit 8. */
    method OutputByte(temp: nat)
      requires OutputOk()
      requires temp <= 0x11F && (temp > 0xFF ==> buffer >= 0)
      modifies this`out, this`emitted, this`zc, this`sc, this`buffer
      ensures OutputOk()
      ensures Value(Logical()) == 256 * Value(old(Logical())) + temp
      ensures |Logical()| == |old(Logical())| + 1
    {
      hide Stuff, Value, Repeat;
      RepeatSnoc(0xFF, sc);
      ghost var before := Logical();
      if temp > 0xFF {
        PropagateCarry();
        Hold((temp % 0x100) as Byte);
      } else if temp == 0xFF {
        sc := sc + 1;
        assert Logical() == before + [0xFF];
        ValueSnoc(before, 0xFF);
      } else {
        ReleaseHeld();
        Hold((temp % 0x100) as Byte);
      }
    }

    method ShiftOnce(ghost v: Interval)
      requires Holds(v) && 1 <= ct && WithinUnit(v)
      requires 0 < a < 0x8000
      modifies this`out, this`emitted, this`zc, this`sc, this`buffer, this`c, this`ct, this`a
      ensures Holds(Doubled(v)) && 1 <= ct
      ensures a == 2 * old(a)
    {
      hide Layout, WithinUnit, OutputOk;
      ghost var n, len := Value(Logical()), |Logical()|;
      WithinUnitDoubled(v);
      LayoutAfterShift(n, len, c, a, ct, v);
      a := 2 * a;
      c := 2 * c;
      ct := ct - 1;
      if ct == 0 {
        NothingHeldMeansOnes();
        CarryNeedsHeldByte(n, len, c, a, 0, Doubled(v));
        LayoutAfterByte(n, len, c, a, Doubled(v));
        OutputByte(c / 0x8_0000);
        c := c % 0x8_0000;
        ct := ct + 8;
      }
    }

    lemma NothingHeldMeansOnes()
      requires OutputOk()
      ensures buffer < 0 ==> Value(Logical()) + 1 == Pow2(8 * |Logical()|)
    {
      if buffer < 0 {
        assert Logical() == Repeat(0xFF, sc);
        ValueOfOnes(sc);
      }
    }

    /** Renormalization and data output. */
    method Renormalize(ghost v: Interval)
      requires Holds(v) && 1 <= ct && WithinUnit(v)
      requires 0 < a < 0x8000
      modifies this`out, this`emitted, this`zc, this`sc, this`buffer, this`c, this`ct, this`a
      ensures Holds(Renormalized(v)) && 1 <= ct
    {
      hide Layout, OutputOk, WithinUnit;
      ghost var w := v;
      LayoutSize(Value(Logical()), |Logical()|, c, a, ct, v);
      while a < 0x8000
        invariant 0 < a == w.size
        invariant Holds(w) && 1 <= ct && WithinUnit(w)
        invariant Renormalized(w) == Renormalized(v)
        decreases 0x8000 - a
      {
        ShiftOnce(w);
        WithinUnitDoubled(w);
        w := Doubled(w);
      }
    }

    /** Codes one decision (arith_encode). */
    method Encode(bin: Bin, bit: bool)
      requires Valid()
      modifies this
      ensures Valid() && log == old(log) + [Decision(bin, bit)] && closed == old(closed)
    {
      hide Layout, OutputOk, WithinUnit, Renormalized, Run, Value, Stuffed;
      hide EstimateOf, Mps, AfterLps, AfterMps, Stat, Logical;
      ghost var m := Run(log);
      RunWithinUnit(log);
      RunSnoc(log, Decision(bin, bit));
      log := log + [Decision(bin, bit)];

      var sv := Stat(stats, bin);
      var qe := EstimateOf(sv).qe;
      LayoutSize(Value(Logical()), |Logical()|, c, a, ct, m.interval);
      ghost var part := Part(m.interval, qe, TakesUpper(m.interval.size, sv, bit));
      LayoutOfPart(Value(Logical()), |Logical()|, c, a, ct, m.interval, qe);
      a := a - qe;
      if bit != Mps(sv) {
        if a >= qe {
          c := c + a;
          a := qe;
        }
        stats := stats[bin := AfterLps(sv)];
      } else {
        if a >= 0x8000 {
          return;
        }
        if a < qe {
          c := c + a;
          a := qe;
        }
        stats := stats[bin := AfterMps(sv)];
      }
      assert Holds(part);
      Renormalize(part);
    }

    /** Settles the held and stacked bytes once the last carry is known. */
    method SettleHeld(carry: bool)
      requires OutputOk() && (carry ==> buffer >= 0)
      modifies this`out, this`emitted, this`zc, this`sc
      ensures Stuffed() && sc == 0
      ensures emitted != [] ==> emitted[|emitted| - 1] != 0
      ensures |emitted| + zc == |old(Logical())|
      ensures Value(emitted + Repeat(0, zc)) == Value(old(Logical())) + if carry then 1 else 0
    {
      hide Value, Stuff;
      if carry {
        PropagateCarry();
      } else {
        ReleaseHeld();
        assert |emitted + Repeat(0, zc)| == |emitted| + zc;
      }
    }

    /** Outputs the last two bytes, except for final zero bytes. */
    method EmitFinal(b1: Byte, b2: Byte)
      requires Stuffed()
      requires emitted != [] ==> emitted[|emitted| - 1] != 0
      modifies this`out, this`emitted, this`zc
      ensures Stuffed()
      ensures emitted != [] ==> emitted[|emitted| - 1] != 0
      ensures var settled := old(emitted + Repeat(0, zc));
              && |emitted| <= |settled| + 2
              && CodeAt(emitted, |settled| + 2)
                 == 0x1_0000 * Value(settled) + 0x100 * b1 as int + b2 as int
    {
      hide Stuff, Value, CodeAt;
      ghost var settled := emitted + Repeat(0, zc);
      ghost var dropped := 0;
      if b1 != 0 || b2 != 0 {
        EmitPendingZeros();
        EmitStuffed(b1);
        if b2 != 0 {
          EmitStuffed(b2);
        } else {
          dropped := 1;
        }
      } else {
        dropped := zc + 2;
      }
      assert emitted + Repeat(0, dropped) == settled + [b1] + [b2] by {
        RepeatSnoc(0, 0);
        RepeatSnoc(0, zc);
        RepeatSnoc(0, zc + 1);
      }
      CodeAtPadded(emitted, dropped);
      ValueSnoc(settled, b1);
      ValueSnoc(settled + [b1], b2);
    }

    /** Takes the point of the interval with the most trailing zero bits. */
    method PickPoint()
      requires 0x8000 <= a && c + a < 0x1_0000_0000
      modifies this`c
      ensures old(c) <= c < old(c) + a && c % 0x8000 == 0
    {
      FinalPoint(c, a);
      var temp := (a - 1 + c) / 0x1_0000 % 0x1_0000 * 0x1_0000;
      if temp < c {
        c := temp + 0x8000;
      } else {
        c := temp;
      }
    }

    /** Ends the segment (finish_pass). */
    method FinishPass()
      requires Valid()
      modifies this
      ensures log == old(log) && closed == old(closed)
      ensures Stuffed() && Inside(emitted, Run(log).interval)
      ensures emitted != [] ==> emitted[|emitted| - 1] != 0
    {
      hide Stuff, Value, Run, CodeAt, Logical, Inside, Layout, WithinUnit, Pow2;
      ghost var n, len, v := Value(Logical()), |Logical()|, Run(log).interval;
      ghost var c0, ct0 := c, ct;
      RegisterBound();
      PickPoint();
      ghost var point := c;
      FinalShift(point, a, c0, ct);
      FinalBytes(point * Pow2(ct));
      c := c * Pow2(ct);
      SettleHeld(c / 0x800_0000 % 0x20 != 0);
      var b1, b2 := c / 0x8_0000 % 0x100, c / 0x800 % 0x100;
      EmitFinal(b1 as Byte, b2 as Byte);
      FinalCodeInside(emitted, n, len, c0, a, ct0, v, point);
    }

    /** emit_restart, once the pass is finished: the marker, and everything as at the start of a pass. */
    method Restart(restartNum: nat)
      requires Stuffed() && restartNum < 8
      modifies this
      ensures Valid() && log == [] && emitted == []
      ensures closed == old(closed + Stuff(emitted)) + [0xFF, (RST0 + restartNum) as Byte]
    {
      hide Layout, Step, Value, Stuff;
      out := out + [0xFF];
      out := out + [(RST0 + restartNum) as Byte];
      closed := out;
      stats := map[];
      c, a, sc, zc, ct, buffer := 0, 0x1_0000, 0, 0, 11, -1;
      emitted, log := [], [];
      LayoutAtStart();
      NothingStuffed();
    }

    lemma RegisterBound()
      requires Valid()
      ensures 0x8000 <= a && c + a < 0x1_0000_0000
      ensures (c + a) * Pow2(ct) <= 0x900_0000
      ensures buffer < 0 ==> (c + a) * Pow2(ct) <= 0x800_0000
    {
      hide Value, Logical, Run;
      RunWithinUnit(log);
      NothingHeldMeansOnes();
      CarryNeedsHeldByte(Value(Logical()), |Logical()|, c, a, ct, Run(log).interval);
      MulMonotone(1, Pow2(ct), c + a);
    }
  }
}
