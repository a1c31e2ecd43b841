/** What the five MCU routines of jcarith.c and jdarith.c do with one block. */
module ArithScans {
  import opened Coefficients
  import opened Powers
  import opened ByteStrings
  import opened IntervalCoding
  import opened ArithDecoder
  import opened ArithSession
  import opened ArithCoefficients
  import opened ArithBlocks
  import opened PointTransform

  datatype Component = Component(dcTbl: Table, acTbl: Table)

  datatype Frame = Frame(cond: Conditioning, comps: seq<Component>)

  /** jpeg_scan_info: component indices, spectral band, successive approximation. */
  datatype Scan = Scan(comps: seq<int>, ss: int, se: int, ah: int, al: int)

  datatype Routine = Sequential | DcFirst | AcFirst | DcRefine | AcRefine

  /** The routine that start_pass selects. */
  function RoutineFor(progressive: bool, scan: Scan): Routine {
    if !progressive then Sequential
    else if scan.ah == 0 then if scan.ss == 0 then DcFirst else AcFirst
    else if scan.ss == 0 then DcRefine else AcRefine
  }

  /** Ranges under which a scan names a band of coefficients and its point transform. */
  predicate Sound(routine: Routine, scan: Scan) {
    && 0 <= scan.al <= 13
    && match routine
       case Sequential => scan.ss == 0 && scan.se == 63 && scan.ah == 0 && scan.al == 0
       case DcFirst => scan.ss == scan.se == 0
       case DcRefine => scan.ss == scan.se == 0
       case _ => 1 <= scan.ss <= scan.se < BLOCK_SIZE
  }

  /** Arithmetic shift right, which rounds down. */
  function Asr(x: int, n: nat): int {
    x / Pow2(n)
  }

  function AcBand(f: Frame, c: nat, scan: Scan): Band
    requires c < |f.comps| && 0 <= scan.se && 0 <= scan.al
  {
    Band(f.cond, f.comps[c].acTbl, scan.se, scan.al)
  }

  function FirstBand(b: Band, z: Block, ss: nat): seq<Decision>
    requires 1 <= ss && b.se < BLOCK_SIZE
  {
    BandDecisions(b, z, ss, LastSignificant(z, b.al, b.se))
  }

  function RefinedBand(b: Band, z: Block, ss: nat): seq<Decision>
    requires 1 <= ss && b.se < BLOCK_SIZE
  {
    var ke := LastSignificant(z, b.al, b.se);
    RefineDecisions(b, z, ss, ke, LastSignificant(z, b.al + 1, ke))
  }

  /** The DC value a first scan codes. */
  function DcValue(scan: Scan, z: Block): int
    requires 0 <= scan.al
  {
    Asr(z[0], scan.al)
  }

  /** The decisions for one block of component c; `s` is that component's DC state. */
  function BlockDecisions(f: Frame, routine: Routine, scan: Scan, c: nat, s: DcState, z: Block): seq<Decision>
    requires c < |f.comps| && Sound(routine, scan)
  {
    match routine
    case Sequential => DcDecisions(f.comps[c].dcTbl, s, DcValue(scan, z)) + FirstBand(AcBand(f, c, scan), z, 1)
    case DcFirst => DcDecisions(f.comps[c].dcTbl, s, DcValue(scan, z))
    case AcFirst => FirstBand(AcBand(f, c, scan), z, scan.ss)
    case DcRefine => [Decision(Fixed, DcValue(scan, z) % 2 == 1)]
    case AcRefine => RefinedBand(AcBand(f, c, scan), z, scan.ss)
  }

  predicate CodesDc(routine: Routine) {
    routine == Sequential || routine == DcFirst
  }

  function DcStateAfter(f: Frame, routine: Routine, scan: Scan, c: nat, s: DcState, z: Block): DcState
    requires c < |f.comps| && Sound(routine, scan)
  {
    if CodesDc(routine) then DcAfter(f.cond, f.comps[c].dcTbl, s, DcValue(scan, z)) else s
  }

  /** A block as decoded so far, or the point at which decoding gave up. */
  datatype VisitResult = VisitRead(y: Block, s: DcState, r: Reader) | VisitBad(y: Block, s: DcState, r: Reader)

  function AfterBand(s: DcState, d: BlockResult): VisitResult {
    match d
    case BlockRead(z, r) => VisitRead(z, s, r)
    case BlockBad(z, r) => VisitBad(z, s, r)
  }

  function ReadDcBlock(src: seq<Byte>, r: Reader, f: Frame, scan: Scan, c: nat, s: DcState, y: Block): VisitResult
    requires c < |f.comps| && 0 <= scan.al
  {
    match ReadDc(src, r, f.cond, f.comps[c].dcTbl, s)
    case DcBad(r1) => VisitBad(y, s, r1)
    case DcRead(s1, r1) => VisitRead(y[0 := Jcoef(s1.last * Pow2(scan.al))], s1, r1)
  }

  /** y | 1 << al. */
  function SetBit(y: int, al: nat): int {
    if Asr(y, al) % 2 == 1 then y else y + Pow2(al)
  }

  function ReadBlock(src: seq<Byte>, r: Reader, f: Frame, routine: Routine, scan: Scan, c: nat, s: DcState,
                     y: Block): VisitResult
    requires c < |f.comps| && Sound(routine, scan)
  {
    match routine
    case Sequential =>
      (match ReadDcBlock(src, r, f, scan, c, s, y)
       case VisitBad(y1, s1, r1) => VisitBad(y1, s1, r1)
       case VisitRead(y1, s1, r1) => AfterBand(s1, ReadBand(src, r1, AcBand(f, c, scan), y1, 1)))
    case DcFirst => ReadDcBlock(src, r, f, scan, c, s, y)
    case AcFirst => AfterBand(s, ReadBand(src, r, AcBand(f, c, scan), y, scan.ss))
    case DcRefine =>
      var (bit, r1) := Next(src, r, Fixed);
      VisitRead(if bit then y[0 := SetBit(y[0], scan.al)] else y, s, r1)
    case AcRefine =>
      AfterBand(s, ReadRefine(src, r, AcBand(f, c, scan), y, scan.ss, LastNonzero(y, scan.se)))
  }

  // ---------------------------------------------------------------- what arrives

  /** Coefficient k as far as it has been sent when its last bit position is `bits` (-1: not at all). */
  function Sent(x: int, k: nat, bits: int): int {
    if bits < 0 then 0
    else if k == 0 then Asr(x, bits) * Pow2(bits)
    else Truncated(x, bits)
  }

  ghost predicate HoldsBits(z: Block, y: Block, bits: Block) {
    forall k :: 0 <= k < BLOCK_SIZE ==> y[k] == Sent(z[k], k, bits[k])
  }

  /** The bit positions of a band either are all new or all follow on from the last scan. */
  predicate BandAllowed(scan: Scan, bits: Block)
    requires 0 <= scan.ss && scan.se < BLOCK_SIZE
  {
    forall k :: scan.ss <= k <= scan.se ==>
      if bits[k] < 0 then scan.ah == 0 else scan.ah == bits[k] && scan.al == scan.ah - 1
  }

  function BitsAfter(scan: Scan, bits: Block): Block {
    seq(BLOCK_SIZE, k requires 0 <= k < BLOCK_SIZE => if scan.ss <= k <= scan.se then scan.al else bits[k])
  }

  /** Differences of 16-bit DC values that the category limit admits. */
  predicate DcWithinLimit(routine: Routine, scan: Scan, s: DcState, z: Block)
    requires Sound(routine, scan)
  {
    CodesDc(routine) ==> Abs(DcValue(scan, z) - s.last) <= 0x8000
  }

  lemma AsrBounds(x: int, n: nat)
    ensures Asr(x, n) * Pow2(n) <= x < (Asr(x, n) + 1) * Pow2(n)
  {
    var d := Pow2(n);
    assert x == d * (x / d) + x % d;
  }

  /** Rounding down to a multiple of 2^al stays within 16 bits. */
  lemma AsrRange(x: int, al: nat)
    requires -0x8000 <= x < 0x8000 && al <= 13
    ensures -0x8000 <= Asr(x, al) * Pow2(al) <= x
  {
    hide Asr;
    var q, p, h := Asr(x, al), Pow2(al), Pow2(15 - al);
    AsrBounds(x, al);
    Pow2Add(15 - al, al);
    assert h * p == 0x8000 by { Pow2Values(); DoublePower(15); }
    if q < -h {
      MulMonotone(q + 1, -h, p);
    } else {
      MulMonotone(-h, q, p);
    }
  }

  /** Shifting back the predictor, kept modulo 2^16, gives the 16-bit value. */
  lemma DcScaled(x: int, last: int, al: nat)
    requires -0x8000 <= x < 0x8000 && last == Asr(x, al) % 0x1_0000 && al <= 13
    ensures Jcoef(last * Pow2(al)) == Asr(x, al) * Pow2(al)
  {
    hide Asr, Pow2, Jcoef;
    var q, p := Asr(x, al), Pow2(al);
    AsrRange(x, al);
    ScaledCongruence(q, p);
    WrapsTo(last * p, q * p, q / 0x1_0000 * p);
  }

  lemma ScaledCongruence(q: int, p: int)
    ensures q * p == q % 0x1_0000 * p + 0x1_0000 * (q / 0x1_0000 * p)
  {
    var h, m := q / 0x1_0000, q % 0x1_0000;
    assert q == 0x1_0000 * h + m;
    assert (0x1_0000 * h + m) * p == 0x1_0000 * h * p + m * p;
  }

  lemma WrapsTo(x: int, y: int, h: int)
    requires -0x8000 <= y < 0x8000 && y == x + 0x1_0000 * h
    ensures Jcoef(x) == y
  {
  }

  /** First scans find their band still zero, refinement scans one bit coarser. */
  lemma BandBefore(scan: Scan, z: Block, y: Block, bits: Block)
    requires 0 <= scan.ss <= scan.se < BLOCK_SIZE && 0 <= scan.al
    requires HoldsBits(z, y, bits) && BandAllowed(scan, bits)
    ensures forall k :: scan.ss <= k <= scan.se ==>
              y[k] == if scan.ah == 0 then 0 else Sent(z[k], k, scan.al + 1)
  {
    hide Sent;
    forall k | scan.ss <= k <= scan.se
      ensures y[k] == if scan.ah == 0 then 0 else Sent(z[k], k, scan.al + 1)
    {
      assert y[k] == Sent(z[k], k, bits[k]);
      if scan.ah == 0 {
        NothingSent(z[k], k, bits[k]);
      }
    }
  }

  lemma NothingSent(x: int, k: nat, bits: int)
    requires bits < 0
    ensures Sent(x, k, bits) == 0
  {
  }

  /** A band whose coefficients arrive with `al` bits dropped advances the block. */
  lemma BandAfter(scan: Scan, z: Block, y: Block, w: Block, bits: Block)
    requires 0 <= scan.ss && scan.se < BLOCK_SIZE && 0 <= scan.al
    requires HoldsBits(z, y, bits)
    requires forall k :: 0 <= k < BLOCK_SIZE ==>
               w[k] == if scan.ss <= k <= scan.se then Sent(z[k], k, scan.al) else y[k]
    ensures HoldsBits(z, w, BitsAfter(scan, bits))
  {
    hide Sent;
  }

  lemma DcBlockIsRead(tx: Transmission, r: Reader, f: Frame, scan: Scan, c: nat, s: DcState, t: DcState,
                      z: Block, y: Block, rest: seq<Decision>)
    requires c < |f.comps| && Sound(DcFirst, scan.(ss := 0, se := 0)) && Representable(z)
    requires SameDc(s, t) && Abs(DcValue(scan, z) - s.last) <= 0x8000
    requires Coming(tx, r, DcDecisions(f.comps[c].dcTbl, s, DcValue(scan, z)) + rest)
    ensures var v := ReadDcBlock(tx.src, r, f, scan, c, t, y);
            && v.VisitRead? && v.y == y[0 := Sent(z[0], 0, scan.al)]
            && SameDc(DcAfter(f.cond, f.comps[c].dcTbl, s, DcValue(scan, z)), v.s)
            && Coming(tx, v.r, rest)
  {
    hide Coming, ReadDc, DcDecisions, DcContext, Asr, Jcoef;
    DcIsRead(tx, r, f.cond, f.comps[c].dcTbl, s, t, DcValue(scan, z), rest);
    DcScaled(z[0], DcValue(scan, z) % 0x1_0000, scan.al);
  }

  /** A first scan of a band that was zero leaves the truncated coefficients there. */
  lemma FirstBandIsRead(tx: Transmission, r: Reader, b: Band, z: Block, y: Block, ss: nat, rest: seq<Decision>)
    requires 1 <= ss && b.se < BLOCK_SIZE && Representable(z)
    requires forall k :: ss <= k <= b.se ==> y[k] == 0
    requires Coming(tx, r, FirstBand(b, z, ss) + rest)
    ensures var d := ReadBand(tx.src, r, b, y, ss);
            && d.BlockRead? && Coming(tx, d.r, rest)
            && forall k :: 0 <= k < BLOCK_SIZE ==>
                 d.z[k] == if ss <= k <= b.se then Truncated(z[k], b.al) else y[k]
  {
    hide Coming, Level, ReadBand, BandDecisions;
    BandIsRead(tx, r, b, z, y, ss, LastSignificant(z, b.al, b.se), rest);
    forall k | ss <= k <= b.se
      ensures Level(z[k], b.al) == 0 ==> Truncated(z[k], b.al) == 0
    {
    }
  }

  /** Both sides agree on which coefficients of the band come after the last nonzero one. */
  lemma {:induction false} RefineIgnoresBelow(b: Band, z: Block, k: nat, ke: nat, kex: nat, kex': nat)
    requires 1 <= k && ke <= b.se < BLOCK_SIZE
    requires k <= ke ==> Level(z[ke], b.al) != 0
    requires kex == kex' || (kex < k && kex' < k)
    ensures RefineDecisions(b, z, k, ke, kex) == RefineDecisions(b, z, k, ke, kex')
    decreases b.se + 1 - k, 1
  {
    hide Level, RefineRunDecisions;
    if k <= ke {
      RefineRunIgnoresBelow(b, z, k, ke, kex, kex');
    }
  }

  lemma {:induction false} RefineRunIgnoresBelow(b: Band, z: Block, k: nat, ke: nat, kex: nat, kex': nat)
    requires 1 <= k <= ke <= b.se < BLOCK_SIZE && Level(z[ke], b.al) != 0
    requires kex == kex' || (kex < k && kex' < k)
    ensures RefineRunDecisions(b, z, k, ke, kex) == RefineRunDecisions(b, z, k, ke, kex')
    decreases b.se + 1 - k, 0
  {
    hide Level, RefineDecisions;
    if Level(z[k], b.al) == 0 {
      RefineRunIgnoresBelow(b, z, k + 1, ke, kex, kex');
    } else {
      RefineIgnoresBelow(b, z, k + 1, ke, kex, kex');
    }
  }

  lemma RefinedBandIsRead(tx: Transmission, r: Reader, b: Band, z: Block, y: Block, ss: nat, rest: seq<Decision>)
    requires 1 <= ss && b.se < BLOCK_SIZE && Representable(z)
    requires Coarser(b, z, y, ss)
    requires Coming(tx, r, RefinedBand(b, z, ss) + rest)
    ensures var d := ReadRefine(tx.src, r, b, y, ss, LastNonzero(y, b.se));
            d.BlockRead? && Coming(tx, d.r, rest) && Refined(b, z, y, d.z, ss)
  {
    hide Coming, Level, ReadRefine, RefineDecisions, Refined;
    var ke := LastSignificant(z, b.al, b.se);
    var kex, kex' := LastSignificant(z, b.al + 1, ke), LastNonzero(y, b.se);
    forall k | ss <= k <= b.se
      ensures y[k] != 0 <==> Level(z[k], b.al + 1) != 0
      ensures Level(z[k], b.al) == 0 ==> y[k] == 0
    {
      OneBitFiner(z[k], b.al);
      LevelHalves(z[k], b.al);
    }
    assert kex == kex' || (kex < ss && kex' < ss);
    RefineIgnoresBelow(b, z, ss, ke, kex, kex');
    RefineIsRead(tx, r, b, z, y, ss, ke, kex', rest);
  }

  /** Setting the next bit of a DC value known down to bit al + 1. */
  lemma DcBitIsSet(x: int, al: nat)
    ensures var y := Asr(x, al + 1) * Pow2(al + 1);
            Asr(x, al) * Pow2(al) == if Asr(x, al) % 2 == 1 then SetBit(y, al) else y
  {
    hide Pow2;
    var p := Pow2(al);
    DoublePower(al);
    HalvesTwice(x, p);
    var h := Asr(x, al + 1);
    SplitLowBitInt(Asr(x, al), p);
    assert h * (2 * p) == 2 * h * p;
    ExactQuotient(2 * h, p);
  }

  lemma SplitLowBitInt(q: int, p: int)
    ensures q * p == q / 2 * (2 * p) + if q % 2 == 1 then p else 0
  {
    var h := q / 2;
    assert q == 2 * h + q % 2;
    assert 2 * h * p == h * (2 * p);
  }

  lemma ExactQuotient(k: int, p: int)
    requires 0 < p
    ensures k * p / p == k
  {
    MulOneMore(k, p);
    FloorIs(k * p, p, k);
  }

  /** What one block's visit must establish on both sides. */
  ghost predicate Received(tx: Transmission, f: Frame, routine: Routine, scan: Scan, c: nat, s: DcState,
                           z: Block, bits: Block, v: VisitResult, rest: seq<Decision>)
    requires c < |f.comps| && Sound(routine, scan)
  {
    && v.VisitRead?
    && SameDc(DcStateAfter(f, routine, scan, c, s, z), v.s)
    && HoldsBits(z, v.y, BitsAfter(scan, bits))
    && Coming(tx, v.r, rest)
  }

  predicate Fits(routine: Routine, scan: Scan) {
    Sound(routine, scan) && (scan.ah == 0 <==> routine != DcRefine && routine != AcRefine)
  }

  /** Every routine reads back the decisions of its counterpart and advances the block. */
  lemma BlockIsRead(tx: Transmission, r: Reader, f: Frame, routine: Routine, scan: Scan, c: nat, s: DcState,
                    t: DcState, z: Block, y: Block, bits: Block, rest: seq<Decision>)
    requires c < |f.comps| && Fits(routine, scan) && Representable(z)
    requires SameDc(s, t) && DcWithinLimit(routine, scan, s, z)
    requires HoldsBits(z, y, bits) && BandAllowed(scan, bits)
    requires Coming(tx, r, BlockDecisions(f, routine, scan, c, s, z) + rest)
    ensures Received(tx, f, routine, scan, c, s, z, bits, ReadBlock(tx.src, r, f, routine, scan, c, t, y), rest)
  {
    hide Coming, FirstBand, RefinedBand, ReadBand, ReadRefine, DcDecisions, ReadDcBlock, Asr, Truncated, Next;
    hide SetBit, DcAfter, SameDc, HoldsBits, BitsAfter;
    BandBefore(scan, z, y, bits);
    var b := AcBand(f, c, scan);
    var v := ReadBlock(tx.src, r, f, routine, scan, c, t, y);
    match routine
    case Sequential =>
      var dc := DcDecisions(f.comps[c].dcTbl, s, DcValue(scan, z));
      assert dc + FirstBand(b, z, 1) + rest == dc + (FirstBand(b, z, 1) + rest);
      DcBlockIsRead(tx, r, f, scan, c, s, t, z, y, FirstBand(b, z, 1) + rest);
      var d := ReadDcBlock(tx.src, r, f, scan, c, t, y);
      FirstBandIsRead(tx, d.r, b, z, d.y, 1, rest);
      BandAfter(scan, z, y, v.y, bits);
    case DcFirst =>
      DcBlockIsRead(tx, r, f, scan, c, s, t, z, y, rest);
      BandAfter(scan, z, y, v.y, bits);
    case AcFirst =>
      FirstBandIsRead(tx, r, b, z, y, scan.ss, rest);
      BandAfter(scan, z, y, v.y, bits);
    case DcRefine =>
      Reads(tx, r, Decision(Fixed, DcValue(scan, z) % 2 == 1), rest);
      DcBitIsSet(z[0], scan.al);
      BandAfter(scan, z, y, v.y, bits);
    case AcRefine =>
      RefinedBandIsRead(tx, r, b, z, y, scan.ss, rest);
      BandAfter(scan, z, y, v.y, bits);
  }
}
