/** Coding the AC coefficients of a block, first scans and refinement scans (section G.1.3 of ITU-T T.81). */
module ArithBlocks {
  import opened Coefficients
  import opened PointTransform
  import opened Powers
  import opened ByteStrings
  import opened IntervalCoding
  import opened ArithDecoder
  import opened ArithSession
  import opened ArithCoefficients

  /** The last index up to k, or 0, whose coefficient survives the point transform. */
  function LastSignificant(z: Block, al: nat, k: nat): (ke: nat)
    requires k < BLOCK_SIZE
    ensures ke <= k && (0 < ke ==> Level(z[ke], al) != 0)
    ensures forall i :: ke < i <= k ==> Level(z[i], al) == 0
  {
    if k == 0 || Level(z[k], al) != 0 then k else LastSignificant(z, al, k - 1)
  }

  /** Bins SE, S0 and SP/SN/X1 of coefficient k. */
  function AcBin(tbl: Table, k: nat, which: nat): Bin
    requires 1 <= k
  {
    Ac(tbl, 3 * (k - 1) + which)
  }

  /** The scan parameters of a band of AC coefficients. */
  datatype Band = Band(cond: Conditioning, tbl: Table, se: nat, al: nat)

  /** Figure F.5: the decisions for the coefficients from k on, ke being the last significant. */
  function BandDecisions(b: Band, z: Block, k: nat, ke: nat): seq<Decision>
    requires 1 <= k && ke <= b.se < BLOCK_SIZE
    requires k <= ke ==> Level(z[ke], b.al) != 0
    decreases b.se + 1 - k, 1
  {
    if k <= ke then [Decision(AcBin(b.tbl, k, 0), false)] + RunDecisions(b, z, k, ke)
    else if k <= b.se then [Decision(AcBin(b.tbl, k, 0), true)]
    else []
  }

  function RunDecisions(b: Band, z: Block, k: nat, ke: nat): seq<Decision>
    requires 1 <= k <= ke <= b.se < BLOCK_SIZE
    requires Level(z[ke], b.al) != 0
    decreases b.se + 1 - k, 0
  {
    var v := Level(z[k], b.al);
    if v == 0 then [Decision(AcBin(b.tbl, k, 1), false)] + RunDecisions(b, z, k + 1, ke)
    else
      [Decision(AcBin(b.tbl, k, 1), true), Decision(Fixed, z[k] < 0)]
      + (AcMagnitudeDecisions(b.cond, b.tbl, k, AcBin(b.tbl, k, 2), v - 1)
         + BandDecisions(b, z, k + 1, ke))
  }

  /** A decoded block, or the overflow that ends decoding in the middle of it. */
  datatype BlockResult = BlockRead(z: Block, r: Reader) | BlockBad(z: Block, r: Reader)

  /** Figure F.20. */
  function ReadBand(src: seq<Byte>, r: Reader, b: Band, y: Block, k: nat): BlockResult
    requires 1 <= k && b.se < BLOCK_SIZE
    decreases b.se + 1 - k, 1
  {
    if k > b.se then BlockRead(y, r)
    else
      var (eob, next) := Next(src, r, AcBin(b.tbl, k, 0));
      if eob then BlockRead(y, next) else ReadRun(src, next, b, y, k)
  }

  function ReadRun(src: seq<Byte>, r: Reader, b: Band, y: Block, k: nat): BlockResult
    requires 1 <= k <= b.se < BLOCK_SIZE
    decreases b.se + 1 - k, 0
  {
    var (significant, r1) := Next(src, r, AcBin(b.tbl, k, 1));
    if !significant then
      if k + 1 > b.se then BlockBad(y, r1) else ReadRun(src, r1, b, y, k + 1)
    else
      var (negative, r2) := Next(src, r1, Fixed);
      match ReadAcMagnitude(src, r2, b.cond, b.tbl, k, AcBin(b.tbl, k, 2))
      case BadMagnitude(r3) => BlockBad(y, r3)
      case Magnitude(_, v, r3) =>
        ReadBand(src, r3, b, y[k := Jcoef(Signed(negative, v + 1) * Pow2(b.al))], k + 1)
  }

  /** `w` is `y` with the significant coefficients of z from k to se put in, truncated. */
  ghost predicate BandReceived(b: Band, z: Block, y: Block, w: Block, k: nat)
  {
    forall i :: 0 <= i < BLOCK_SIZE ==>
      w[i] == if k <= i <= b.se && Level(z[i], b.al) != 0 then Truncated(z[i], b.al) else y[i]
  }

  lemma {:induction false} BandIsRead(tx: Transmission, r: Reader, b: Band, z: Block, y: Block, k: nat, ke: nat,
                                      rest: seq<Decision>)
    requires 1 <= k && ke <= b.se < BLOCK_SIZE && Representable(z)
    requires k <= ke ==> Level(z[ke], b.al) != 0
    requires forall i :: ke < i <= b.se ==> Level(z[i], b.al) == 0
    requires Coming(tx, r, BandDecisions(b, z, k, ke) + rest)
    ensures var d := ReadBand(tx.src, r, b, y, k);
            d.BlockRead? && BandReceived(b, z, y, d.z, k) && Coming(tx, d.r, rest)
    decreases b.se + 1 - k, 1
  {
    hide Coming, Next, RunDecisions, ReadRun, Level;
    if k <= ke {
      var more := RunDecisions(b, z, k, ke);
      assert BandDecisions(b, z, k, ke) + rest == [Decision(AcBin(b.tbl, k, 0), false)] + (more + rest);
      Reads(tx, r, Decision(AcBin(b.tbl, k, 0), false), more + rest);
      RunIsRead(tx, Next(tx.src, r, AcBin(b.tbl, k, 0)).1, b, z, y, k, ke, rest);
    } else if k <= b.se {
      Reads(tx, r, Decision(AcBin(b.tbl, k, 0), true), rest);
    } else {
      assert BandDecisions(b, z, k, ke) + rest == rest;
    }
  }

  lemma {:induction false} RunIsRead(tx: Transmission, r: Reader, b: Band, z: Block, y: Block, k: nat, ke: nat,
                                     rest: seq<Decision>)
    requires 1 <= k <= ke <= b.se < BLOCK_SIZE && Representable(z)
    requires Level(z[ke], b.al) != 0
    requires forall i :: ke < i <= b.se ==> Level(z[i], b.al) == 0
    requires Coming(tx, r, RunDecisions(b, z, k, ke) + rest)
    ensures var d := ReadRun(tx.src, r, b, y, k);
            d.BlockRead? && BandReceived(b, z, y, d.z, k) && Coming(tx, d.r, rest)
    decreases b.se + 1 - k, 0
  {
    hide Coming, Next, Level, ReadAcMagnitude, AcMagnitudeDecisions, BandDecisions, ReadBand, Jcoef;
    var v, zero := Level(z[k], b.al), AcBin(b.tbl, k, 1);
    if v == 0 {
      var more := RunDecisions(b, z, k + 1, ke);
      assert RunDecisions(b, z, k, ke) + rest == [Decision(zero, false)] + (more + rest);
      Reads(tx, r, Decision(zero, false), more + rest);
      RunIsRead(tx, Next(tx.src, r, zero).1, b, z, y, k + 1, ke, rest);
    } else {
      var sign, m := Decision(Fixed, z[k] < 0), AcMagnitudeDecisions(b.cond, b.tbl, k, AcBin(b.tbl, k, 2), v - 1);
      var more := BandDecisions(b, z, k + 1, ke);
      assert RunDecisions(b, z, k, ke) + rest == [Decision(zero, true)] + ([sign] + (m + (more + rest)));
      Reads(tx, r, Decision(zero, true), [sign] + (m + (more + rest)));
      var r1 := Next(tx.src, r, zero).1;
      Reads(tx, r1, sign, m + (more + rest));
      var r2 := Next(tx.src, r1, Fixed).1;
      TruncatedRange(z[k], b.al);
      AcMagnitudeIsRead(tx, r2, b.cond, b.tbl, k, AcBin(b.tbl, k, 2), v - 1, more + rest);
      var g := ReadAcMagnitude(tx.src, r2, b.cond, b.tbl, k, AcBin(b.tbl, k, 2));
      SignedTimes(z[k] < 0, v, Pow2(b.al));
      BandIsRead(tx, g.r, b, z, y[k := Truncated(z[k], b.al)], k + 1, ke, rest);
    }
  }

  // ---------------------------------------------------------------- refinement scans

  /** Figure G.10: refinement decisions from k on; kex is the last coefficient already nonzero. */
  function RefineDecisions(b: Band, z: Block, k: nat, ke: nat, kex: nat): seq<Decision>
    requires 1 <= k && ke <= b.se < BLOCK_SIZE
    requires k <= ke ==> Level(z[ke], b.al) != 0
    decreases b.se + 1 - k, 1
  {
    if k <= ke then
      (if k > kex then [Decision(AcBin(b.tbl, k, 0), false)] else [])
      + RefineRunDecisions(b, z, k, ke, kex)
    else if k <= b.se then [Decision(AcBin(b.tbl, k, 0), true)]
    else []
  }

  function RefineRunDecisions(b: Band, z: Block, k: nat, ke: nat, kex: nat): seq<Decision>
    requires 1 <= k <= ke <= b.se < BLOCK_SIZE
    requires Level(z[ke], b.al) != 0
    decreases b.se + 1 - k, 0
  {
    var v := Level(z[k], b.al);
    if v == 0 then
      [Decision(AcBin(b.tbl, k, 1), false)] + RefineRunDecisions(b, z, k + 1, ke, kex)
    else
      (if v / 2 != 0 then [Decision(AcBin(b.tbl, k, 2), v % 2 == 1)]
       else [Decision(AcBin(b.tbl, k, 1), true), Decision(Fixed, z[k] < 0)])
      + RefineDecisions(b, z, k + 1, ke, kex)
  }

  /** The last nonzero coefficient up to k, or 0. */
  function LastNonzero(y: Block, k: nat): (kex: nat)
    requires k < BLOCK_SIZE
    ensures kex <= k && (0 < kex ==> y[kex] != 0)
    ensures forall i :: kex < i <= k ==> y[i] == 0
  {
    if k == 0 || y[k] != 0 then k else LastNonzero(y, k - 1)
  }

  function ReadRefine(src: seq<Byte>, r: Reader, b: Band, y: Block, k: nat, kex: nat): BlockResult
    requires 1 <= k && b.se < BLOCK_SIZE
    decreases b.se + 1 - k, 1
  {
    if k > b.se then BlockRead(y, r)
    else if k > kex then
      var (eob, next) := Next(src, r, AcBin(b.tbl, k, 0));
      if eob then BlockRead(y, next) else ReadRefineRun(src, next, b, y, k, kex)
    else ReadRefineRun(src, r, b, y, k, kex)
  }

  function ReadRefineRun(src: seq<Byte>, r: Reader, b: Band, y: Block, k: nat, kex: nat): BlockResult
    requires 1 <= k <= b.se < BLOCK_SIZE
    decreases b.se + 1 - k, 0
  {
    if y[k] != 0 then
      var (bit, r1) := Next(src, r, AcBin(b.tbl, k, 2));
      ReadRefine(src, r1, b, if bit then y[k := Jcoef(y[k] + Signed(y[k] < 0, Pow2(b.al)))] else y, k + 1, kex)
    else
      var (significant, r1) := Next(src, r, AcBin(b.tbl, k, 1));
      if significant then
        var (negative, r2) := Next(src, r1, Fixed);
        ReadRefine(src, r2, b, y[k := Jcoef(Signed(negative, Pow2(b.al)))], k + 1, kex)
      else if k + 1 > b.se then BlockBad(y, r1)
      else ReadRefineRun(src, r1, b, y, k + 1, kex)
  }

  /** From k on, `y` holds the coefficients of z one bit coarser than the scan makes them. */
  ghost predicate Coarser(b: Band, z: Block, y: Block, k: nat)
    requires b.se < BLOCK_SIZE
  {
    forall i :: k <= i <= b.se ==> y[i] == Truncated(z[i], b.al + 1)
  }

  /** `w` is `y` with the coefficients of z from k to se put in, truncated at this scan's al. */
  ghost predicate Refined(b: Band, z: Block, y: Block, w: Block, k: nat)
  {
    forall i :: 0 <= i < BLOCK_SIZE ==>
      w[i] == if k <= i <= b.se then Truncated(z[i], b.al) else y[i]
  }

  lemma {:induction false} RefineIsRead(tx: Transmission, r: Reader, b: Band, z: Block, y: Block, k: nat, ke: nat,
                                        kex: nat, rest: seq<Decision>)
    requires 1 <= k && ke <= b.se < BLOCK_SIZE && Representable(z)
    requires k <= ke ==> Level(z[ke], b.al) != 0
    requires forall i :: ke < i <= b.se ==> Level(z[i], b.al) == 0
    requires (kex <= ke || kex < k) && Coarser(b, z, y, k)
    requires Coming(tx, r, RefineDecisions(b, z, k, ke, kex) + rest)
    ensures var d := ReadRefine(tx.src, r, b, y, k, kex);
            d.BlockRead? && Refined(b, z, y, d.z, k) && Coming(tx, d.r, rest)
    decreases b.se + 1 - k, 1
  {
    hide Coming, Next, RefineRunDecisions, ReadRefineRun, Level;
    if k <= ke {
      var more := RefineRunDecisions(b, z, k, ke, kex);
      if k > kex {
        assert RefineDecisions(b, z, k, ke, kex) + rest == [Decision(AcBin(b.tbl, k, 0), false)] + (more + rest);
        Reads(tx, r, Decision(AcBin(b.tbl, k, 0), false), more + rest);
        RefineRunIsRead(tx, Next(tx.src, r, AcBin(b.tbl, k, 0)).1, b, z, y, k, ke, kex, rest);
      } else {
        assert [] + more == more;
        RefineRunIsRead(tx, r, b, z, y, k, ke, kex, rest);
      }
    } else {
      NothingToRefine(b, z, y, k);
      if k <= b.se {
        Reads(tx, r, Decision(AcBin(b.tbl, k, 0), true), rest);
      } else {
        assert RefineDecisions(b, z, k, ke, kex) + rest == rest;
      }
    }
  }

  lemma NothingToRefine(b: Band, z: Block, y: Block, k: nat)
    requires b.se < BLOCK_SIZE && Coarser(b, z, y, k)
    requires forall i :: k <= i <= b.se ==> Level(z[i], b.al) == 0
    ensures Refined(b, z, y, y, k)
  {
    forall i | k <= i <= b.se
      ensures y[i] == Truncated(z[i], b.al)
    {
      OneBitFiner(z[i], b.al);
    }
  }

  lemma {:induction false} RefineRunIsRead(tx: Transmission, r: Reader, b: Band, z: Block, y: Block, k: nat, ke: nat,
                                           kex: nat, rest: seq<Decision>)
    requires 1 <= k <= ke <= b.se < BLOCK_SIZE && Representable(z)
    requires Level(z[ke], b.al) != 0
    requires forall i :: ke < i <= b.se ==> Level(z[i], b.al) == 0
    requires (kex <= ke || kex < k) && Coarser(b, z, y, k)
    requires Coming(tx, r, RefineRunDecisions(b, z, k, ke, kex) + rest)
    ensures var d := ReadRefineRun(tx.src, r, b, y, k, kex);
            d.BlockRead? && Refined(b, z, y, d.z, k) && Coming(tx, d.r, rest)
    decreases b.se + 1 - k, 0
  {
    hide Coming, Next, Level, RefineDecisions, ReadRefine, Jcoef, Truncated;
    var v := Level(z[k], b.al);
    OneBitFiner(z[k], b.al);
    TruncatedRange(z[k], b.al);
    var t := Truncated(z[k], b.al);
    if v == 0 {
      var d, more := Decision(AcBin(b.tbl, k, 1), false), RefineRunDecisions(b, z, k + 1, ke, kex);
      assert RefineRunDecisions(b, z, k, ke, kex) + rest == [d] + (more + rest);
      Reads(tx, r, d, more + rest);
      RefineRunIsRead(tx, Next(tx.src, r, d.bin).1, b, z, y, k + 1, ke, kex, rest);
    } else {
      var more := RefineDecisions(b, z, k + 1, ke, kex);
      if v / 2 != 0 {
        var d := Decision(AcBin(b.tbl, k, 2), v % 2 == 1);
        assert RefineRunDecisions(b, z, k, ke, kex) + rest == [d] + (more + rest);
        Reads(tx, r, d, more + rest);
        assert !d.bit ==> y[k := t] == y;
        RefineIsRead(tx, Next(tx.src, r, d.bin).1, b, z, y[k := t], k + 1, ke, kex, rest);
      } else {
        var d, sign := Decision(AcBin(b.tbl, k, 1), true), Decision(Fixed, z[k] < 0);
        assert RefineRunDecisions(b, z, k, ke, kex) + rest == [d] + ([sign] + (more + rest));
        Reads(tx, r, d, [sign] + (more + rest));
        var r1 := Next(tx.src, r, d.bin).1;
        Reads(tx, r1, sign, more + rest);
        RefineIsRead(tx, Next(tx.src, r1, Fixed).1, b, z, y[k := t], k + 1, ke, kex, rest);
      }
    }
  }
}
