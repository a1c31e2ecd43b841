/** Successive approximation: what the point transform by Al keeps of a coefficient (section G.1.2 of ITU-T T.81). */
module PointTransform {
  import opened Coefficients
  import opened Powers

  /** The magnitude after the point transform by Al. */
  function Level(x: int, al: nat): nat {
    ShiftRight(Abs(x), al)
  }

  function Signed(negative: bool, v: int): int {
    if negative then -v else v
  }

  /** What is left of a coefficient when its lowest `al` magnitude bits are dropped. */
  function Truncated(x: int, al: nat): int {
    Signed(x < 0, Level(x, al) * Pow2(al))
  }

  lemma TruncatedRange(x: int, al: nat)
    requires -0x8000 <= x < 0x8000
    ensures Jcoef(Truncated(x, al)) == Truncated(x, al)
    ensures Level(x, al) <= 0x8000
  {
  }

  lemma SignedTimes(negative: bool, v: int, p: int)
    ensures Signed(negative, v) * p == Signed(negative, v * p)
  {
  }

  /** One more magnitude bit: what a refinement scan adds to a coefficient. */
  lemma OneBitFiner(x: int, al: nat)
    ensures Truncated(x, al + 1) == 0 <==> Level(x, al) / 2 == 0
    ensures Truncated(x, al + 1) != 0 ==> (Truncated(x, al + 1) < 0 <==> x < 0)
    ensures Truncated(x, al)
         == Truncated(x, al + 1) + Signed(x < 0, if Level(x, al) % 2 == 1 then Pow2(al) else 0)
  {
    hide Level, Pow2;
    LevelHalves(x, al);
    SplitLowBit(Level(x, al), Pow2(al));
    DoublePower(al);
  }

  lemma SplitLowBit(q: nat, p: nat)
    requires 0 < p
    ensures q * p == q / 2 * (2 * p) + if q % 2 == 1 then p else 0
    ensures q / 2 * (2 * p) >= 0 && (q / 2 * (2 * p) == 0 <==> q / 2 == 0)
  {
    var h := q / 2;
    assert q == 2 * h + q % 2;
    assert 2 * h * p == h * (2 * p);
  }

  lemma LevelHalves(x: int, al: nat)
    ensures Level(x, al + 1) == Level(x, al) / 2
  {
    HalvesTwice(Abs(x), Pow2(al));
  }
}
