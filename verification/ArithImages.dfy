/** Whole scans of an image, as a sequence of block visits coded into one segment. */
module ArithImages {
  import opened Coefficients
  import opened Powers
  import opened ByteStrings
  import opened IntervalCoding
  import opened ArithDecoder
  import opened ArithSession
  import opened ArithCoefficients
  import opened ArithBlocks
  import opened ArithScans

  /** For each component its blocks, including the padding that interleaved scans visit. */
  type Image = seq<seq<Block>>

  datatype Visit = Visit(comp: nat, index: nat)

  ghost predicate InImage(f: Frame, image: Image, v: Visit) {
    |image| == |f.comps| && v.comp < |f.comps| && v.index < |image[v.comp]|
  }

  ghost predicate AllInImage(f: Frame, image: Image, visits: seq<Visit>) {
    && |image| == |f.comps|
    && forall n :: 0 <= n < |visits| ==> InImage(f, image, visits[n])
  }

  ghost predicate SameShape(x: Image, y: Image) {
    |x| == |y| && forall c :: 0 <= c < |x| ==> |x[c]| == |y[c]|
  }

  /** JCOEF is a 16-bit integer. */
  ghost predicate SixteenBit(image: Image) {
    forall c, i :: 0 <= c < |image| && 0 <= i < |image[c]| ==> Representable(image[c][i])
  }

  /** All decisions of a scan; DC states run on from block to block of a component. */
  ghost function ScanDecisions(f: Frame, routine: Routine, scan: Scan, states: seq<DcState>, image: Image,
                               visits: seq<Visit>): seq<Decision>
    requires Sound(routine, scan) && |states| == |f.comps| && AllInImage(f, image, visits)
    decreases |visits|
  {
    if visits == [] then []
    else
      var v := visits[0];
      assert InImage(f, image, v);
      var z := image[v.comp][v.index];
      BlockDecisions(f, routine, scan, v.comp, states[v.comp], z)
      + ScanDecisions(f, routine, scan,
                      states[v.comp := DcStateAfter(f, routine, scan, v.comp, states[v.comp], z)],
                      image, visits[1..])
  }

  /** The encoder's DC states after the visits. */
  ghost function StatesAfter(f: Frame, routine: Routine, scan: Scan, states: seq<DcState>, image: Image,
                             visits: seq<Visit>): (t: seq<DcState>)
    requires Sound(routine, scan) && |states| == |f.comps| && AllInImage(f, image, visits)
    ensures |t| == |states|
    decreases |visits|
  {
    if visits == [] then states
    else
      var v := visits[0];
      assert InImage(f, image, v);
      StatesAfter(f, routine, scan,
                  states[v.comp := DcStateAfter(f, routine, scan, v.comp, states[v.comp], image[v.comp][v.index])],
                  image, visits[1..])
  }

  /** Every DC difference the scan codes has a magnitude category, that is, it is at most 32768. */
  ghost predicate InLimit(f: Frame, routine: Routine, scan: Scan, states: seq<DcState>, image: Image, visits: seq<Visit>)
    requires Sound(routine, scan) && |states| == |f.comps| && AllInImage(f, image, visits)
    decreases |visits|
  {
    visits == [] ||
    var v := visits[0];
    assert InImage(f, image, v);
    var z := image[v.comp][v.index];
    && DcWithinLimit(routine, scan, states[v.comp], z)
    && InLimit(f, routine, scan, states[v.comp := DcStateAfter(f, routine, scan, v.comp, states[v.comp], z)], image,
               visits[1..])
  }

  /** The image after a scan has been decoded into it, and whether decoding got to the end. */
  datatype ScanResult = ScanResult(image: Image, done: bool, states: seq<DcState>, r: Reader)

  ghost function ReadScan(src: seq<Byte>, r: Reader, f: Frame, routine: Routine, scan: Scan,
                          states: seq<DcState>, image: Image, visits: seq<Visit>): (d: ScanResult)
    requires Sound(routine, scan) && |states| == |f.comps| && AllInImage(f, image, visits)
    ensures SameShape(image, d.image)
    decreases |visits|
  {
    if visits == [] then ScanResult(image, true, states, r)
    else
      var v := visits[0];
      assert InImage(f, image, v);
      var d := ReadBlock(src, r, f, routine, scan, v.comp, states[v.comp], image[v.comp][v.index]);
      var next := Put(image, v, d.y);
      if d.VisitBad? then ScanResult(next, false, states[v.comp := d.s], d.r)
      else
        assert AllInImage(f, next, visits[1..]) by {
          forall n | 0 <= n < |visits| - 1
            ensures InImage(f, next, visits[1..][n])
          {
            assert InImage(f, image, visits[n + 1]);
          }
        }
        ReadScan(src, d.r, f, routine, scan, states[v.comp := d.s], next, visits[1..])
  }

  ghost function Put(image: Image, v: Visit, y: Block): (w: Image)
    requires v.comp < |image| && v.index < |image[v.comp]|
    ensures SameShape(image, w)
    ensures w[v.comp][v.index] == y
    ensures forall c, i :: 0 <= c < |w| && 0 <= i < |w[c]| && (c != v.comp || i != v.index) ==>
              w[c][i] == image[c][i]
  {
    var row: seq<Block> := image[v.comp];
    var changed: seq<Block> := row[v.index := y];
    image[v.comp := changed]
  }

  /** Only DC scans may visit padding; every real block of the scan is visited exactly once. */
  ghost predicate WalkOk(routine: Routine, scan: Scan, visits: seq<Visit>, content: set<Visit>)
  {
    && (forall n :: 0 <= n < |visits| ==> visits[n].comp in scan.comps)
    && (forall n :: 0 <= n < |visits| ==> visits[n] in content || routine == DcFirst || routine == DcRefine)
    && (forall v :: v in content && v.comp in scan.comps ==> v in visits)
    && VisitedOnce(visits, content)
  }

  ghost predicate VisitedOnce(visits: seq<Visit>, content: set<Visit>) {
    forall m, n :: 0 <= m < n < |visits| && visits[m] in content ==> visits[m] != visits[n]
  }

  /** The real blocks hold their coefficients as far as their bit positions say. */
  ghost predicate Progress(z: Image, y: Image, bits: map<Visit, Block>)
  {
    && SameShape(z, y)
    && forall v :: v in bits ==>
         && v.comp < |z| && v.index < |z[v.comp]|
         && HoldsBits(z[v.comp][v.index], y[v.comp][v.index], bits[v])
  }

  /** The bit positions after a scan has visited `visits`. */
  ghost function BitsAfterVisits(scan: Scan, bits: map<Visit, Block>, visits: seq<Visit>): map<Visit, Block>
  {
    map v | v in bits :: if v in visits then BitsAfter(scan, bits[v]) else bits[v]
  }

  /** DC states of both sides. */
  ghost predicate StatesAgree(s: seq<DcState>, t: seq<DcState>) {
    |s| == |t| && forall c :: 0 <= c < |s| ==> SameDc(s[c], t[c])
  }

  ghost predicate DcOnly(routine: Routine) {
    routine == DcFirst || routine == DcRefine
  }

  /** A visit to padding: both sides stay in step whatever the decoder's block holds. */
  lemma PaddingIsRead(tx: Transmission, r: Reader, f: Frame, routine: Routine, scan: Scan, c: nat, s: DcState,
                      t: DcState, z: Block, y: Block, rest: seq<Decision>)
    requires c < |f.comps| && Fits(routine, scan) && Representable(z) && DcOnly(routine)
    requires SameDc(s, t) && DcWithinLimit(routine, scan, s, z)
    requires Coming(tx, r, BlockDecisions(f, routine, scan, c, s, z) + rest)
    ensures var v := ReadBlock(tx.src, r, f, routine, scan, c, t, y);
            v.VisitRead? && SameDc(DcStateAfter(f, routine, scan, c, s, z), v.s) && Coming(tx, v.r, rest)
  {
    hide Coming, DcDecisions, ReadDcBlock, Asr, Next, SetBit, DcAfter, SameDc;
    if routine == DcFirst {
      DcBlockIsRead(tx, r, f, scan, c, s, t, z, y, rest);
    } else {
      Reads(tx, r, Decision(Fixed, DcValue(scan, z) % 2 == 1), rest);
    }
  }

  lemma StatesStayInStep(s: seq<DcState>, t: seq<DcState>, c: nat, after: DcState, next: DcState)
    requires StatesAgree(s, t) && c < |s| && SameDc(after, next)
    ensures StatesAgree(s[c := after], t[c := next])
  {
    hide SameDc;
  }

  /** A DC difference above the limit ends decoding. */
  lemma VisitIsRefused(tx: Transmission, r: Reader, f: Frame, routine: Routine, scan: Scan, c: nat, s: DcState,
                       t: DcState, z: Block, y: Block, rest: seq<Decision>)
    requires c < |f.comps| && Sound(routine, scan) && SameDc(s, t) && !DcWithinLimit(routine, scan, s, z)
    requires Coming(tx, r, BlockDecisions(f, routine, scan, c, s, z) + rest)
    ensures ReadBlock(tx.src, r, f, routine, scan, c, t, y).VisitBad?
  {
    hide Coming, DcDecisions, ReadDc, Asr, FirstBand, ReadBand, DcAfter, SameDc;
    var dc := DcDecisions(f.comps[c].dcTbl, s, DcValue(scan, z));
    var more := if routine == Sequential then FirstBand(AcBand(f, c, scan), z, 1) + rest else rest;
    assert BlockDecisions(f, routine, scan, c, s, z) + rest == dc + more;
    DcIsRead(tx, r, f.cond, f.comps[c].dcTbl, s, t, DcValue(scan, z), more);
  }

  /**
   Decoding a whole scan gets to the end if and only if every DC difference is within the limit; it then
   advances every block that carries content, and nothing is left over.
   */
  lemma {:induction false} ScanIsRead(tx: Transmission, r: Reader, f: Frame, routine: Routine, scan: Scan,
                                      s: seq<DcState>, t: seq<DcState>, z: Image, y: Image,
                                      bits: map<Visit, Block>, visits: seq<Visit>, rest: seq<Decision>)
    requires Fits(routine, scan) && AllInImage(f, z, visits) && AllInImage(f, y, visits) && SixteenBit(z)
    requires Progress(z, y, bits) && |s| == |f.comps| && StatesAgree(s, t)
    requires forall n :: 0 <= n < |visits| ==> visits[n] in bits || DcOnly(routine)
    requires forall v :: v in bits && v in visits ==> BandAllowed(scan, bits[v])
    requires VisitedOnce(visits, bits.Keys)
    requires Coming(tx, r, ScanDecisions(f, routine, scan, s, z, visits) + rest)
    ensures var d := ReadScan(tx.src, r, f, routine, scan, t, y, visits);
            && (d.done <==> InLimit(f, routine, scan, s, z, visits))
            && (d.done ==>
                  && Progress(z, d.image, BitsAfterVisits(scan, bits, visits)) && Coming(tx, d.r, rest)
                  && StatesAgree(StatesAfter(f, routine, scan, s, z, visits), d.states))
    decreases |visits|
  {
    hide Coming, BlockDecisions, ReadBlock, BandAllowed, HoldsBits, BitsAfter, SameDc, DcStateAfter, Representable,
      DcWithinLimit, SixteenBit, StatesAgree;
    StatesLength(s, t);
    if visits == [] {
      assert ScanDecisions(f, routine, scan, s, z, visits) + rest == rest;
      assert BitsAfterVisits(scan, bits, visits) == bits;
    } else {
      var v, later := visits[0], visits[1..];
      assert InImage(f, z, v) && InImage(f, y, v);
      var x := z[v.comp][v.index];
      var first := BlockDecisions(f, routine, scan, v.comp, s[v.comp], x);
      var after := DcStateAfter(f, routine, scan, v.comp, s[v.comp], x);
      LaterInImage(f, z, z, visits);
      var more := ScanDecisions(f, routine, scan, s[v.comp := after], z, later) + rest;
      assert ScanDecisions(f, routine, scan, s, z, visits) + rest == first + more;
      if !DcWithinLimit(routine, scan, s[v.comp], x) {
        VisitIsRefused(tx, r, f, routine, scan, v.comp, s[v.comp], t[v.comp], x, y[v.comp][v.index], more);
      } else {
        BlocksAreSixteenBit(z, v);
        var d := VisitIsRead(tx, r, f, routine, scan, s, t, z, y, bits, v, more);
        var y', bits' := Put(y, v, d.y), if v in bits then bits[v := BitsAfter(scan, bits[v])] else bits;
        BitsStepwise(scan, bits, visits);
        LaterInImage(f, y, y', visits);
        StatesStayInStep(s, t, v.comp, after, d.s);
        ScanIsRead(tx, d.r, f, routine, scan, s[v.comp := after], t[v.comp := d.s], z, y', bits', later, rest);
      }
    }
  }

  /** Two 16-bit values may be too far apart: the smallest, followed by the largest, is refused. */
  lemma ExtremesAreRefused(f: Frame, scan: Scan, states: seq<DcState>, z: Image, v: Visit, w: Visit)
    requires Sound(Sequential, scan) && |states| == |f.comps| && InImage(f, z, v) && InImage(f, z, w)
    requires v.comp == w.comp && z[v.comp][v.index][0] == -0x8000 && z[w.comp][w.index][0] == 0x7FFF
    ensures AllInImage(f, z, [v, w]) && !InLimit(f, Sequential, scan, states, z, [v, w])
  {
    hide DcContext;
    var after := DcStateAfter(f, Sequential, scan, v.comp, states[v.comp], z[v.comp][v.index]);
    assert Pow2(0) == 1;
    assert [v, w][1..] == [w];
    assert !DcWithinLimit(Sequential, scan, after, z[w.comp][w.index]);
  }

  lemma BlocksAreSixteenBit(z: Image, v: Visit)
    requires SixteenBit(z) && v.comp < |z| && v.index < |z[v.comp]|
    ensures Representable(z[v.comp][v.index])
  {
    hide Representable;
  }

  lemma LaterInImage(f: Frame, x: Image, y: Image, visits: seq<Visit>)
    requires visits != [] && AllInImage(f, x, visits) && SameShape(x, y)
    ensures AllInImage(f, y, visits[1..])
  {
    forall n | 0 <= n < |visits| - 1
      ensures InImage(f, y, visits[1..][n])
    {
      assert InImage(f, x, visits[n + 1]);
    }
  }

  lemma BitsStepwise(scan: Scan, bits: map<Visit, Block>, visits: seq<Visit>)
    requires visits != [] && VisitedOnce(visits, bits.Keys)
    ensures var v := visits[0];
            var bits' := if v in bits then bits[v := BitsAfter(scan, bits[v])] else bits;
            && BitsAfterVisits(scan, bits', visits[1..]) == BitsAfterVisits(scan, bits, visits)
            && VisitedOnce(visits[1..], bits'.Keys)
            && (v in bits ==> v !in visits[1..])
  {
    hide BitsAfter;
    var v := visits[0];
    assert forall w :: w in visits <==> w == v || w in visits[1..];
  }

  lemma StatesLength(s: seq<DcState>, t: seq<DcState>)
    requires StatesAgree(s, t)
    ensures |s| == |t| && forall c :: 0 <= c < |s| ==> SameDc(s[c], t[c])
  {
  }

  lemma VisitIsRead(tx: Transmission, r: Reader, f: Frame, routine: Routine, scan: Scan, s: seq<DcState>,
                    t: seq<DcState>, z: Image, y: Image, bits: map<Visit, Block>, v: Visit, more: seq<Decision>)
    returns (d: VisitResult)
    requires Fits(routine, scan) && InImage(f, z, v) && InImage(f, y, v) && |s| == |t| == |z|
    requires Progress(z, y, bits) && SameDc(s[v.comp], t[v.comp])
    requires v in bits || DcOnly(routine)
    requires v in bits ==> BandAllowed(scan, bits[v])
    requires var x := z[v.comp][v.index];
             && Representable(x) && DcWithinLimit(routine, scan, s[v.comp], x)
             && Coming(tx, r, BlockDecisions(f, routine, scan, v.comp, s[v.comp], x) + more)
    ensures d == ReadBlock(tx.src, r, f, routine, scan, v.comp, t[v.comp], y[v.comp][v.index]) && d.VisitRead?
    ensures SameDc(DcStateAfter(f, routine, scan, v.comp, s[v.comp], z[v.comp][v.index]), d.s)
    ensures Progress(z, Put(y, v, d.y), if v in bits then bits[v := BitsAfter(scan, bits[v])] else bits)
    ensures Coming(tx, d.r, more)
  {
    hide Coming, BlockDecisions, ReadBlock, BandAllowed, HoldsBits, BitsAfter, SameDc, DcStateAfter, Representable,
      DcWithinLimit;
    var x, w := z[v.comp][v.index], y[v.comp][v.index];
    d := ReadBlock(tx.src, r, f, routine, scan, v.comp, t[v.comp], w);
    if v in bits {
      BlockIsRead(tx, r, f, routine, scan, v.comp, s[v.comp], t[v.comp], x, w, bits[v], more);
    } else {
      PaddingIsRead(tx, r, f, routine, scan, v.comp, s[v.comp], t[v.comp], x, w, more);
    }
  }

  /**
   Sequential mode: decoding gets to the end if and only if every DC difference is within the limit. Blocks
   that start out zero are then read back exactly, and after any number of MCUs both sides have the same
   predictors modulo 2^16, conditioning contexts and statistics bins.
   */
  lemma SequentialRoundTrip(tx: Transmission, r: Reader, f: Frame, scan: Scan, s: seq<DcState>, t: seq<DcState>,
                            z: Image, y: Image, visits: seq<Visit>, rest: seq<Decision>)
    requires Sound(Sequential, scan) && AllInImage(f, z, visits) && AllInImage(f, y, visits) && SixteenBit(z)
    requires SameShape(z, y) && |s| == |f.comps| && StatesAgree(s, t)
    requires forall m, n :: 0 <= m < n < |visits| ==> visits[m] != visits[n]
    requires forall n, k :: 0 <= n < |visits| && 0 <= k < BLOCK_SIZE ==> y[visits[n].comp][visits[n].index][k] == 0
    requires Coming(tx, r, ScanDecisions(f, Sequential, scan, s, z, visits) + rest)
    ensures var d := ReadScan(tx.src, r, f, Sequential, scan, t, y, visits);
            && (d.done <==> InLimit(f, Sequential, scan, s, z, visits))
            && (d.done ==>
                  && Coming(tx, d.r, rest)
                  && (forall n :: 0 <= n < |visits| ==>
                        d.image[visits[n].comp][visits[n].index] == z[visits[n].comp][visits[n].index])
                  && StatesAgree(StatesAfter(f, Sequential, scan, s, z, visits), d.states)
                  && d.r.stats == Run(Past(tx, rest)).stats)
  {
    hide Coming, ScanDecisions, ReadScan, SixteenBit, StatesAgree, StatesAfter, Progress, BitsAfterVisits, Run, Past,
         InLimit;
    StatesLength(s, t);
    var bits := Unsent(visits);
    UnsentProgress(f, z, y, visits);
    ScanIsRead(tx, r, f, Sequential, scan, s, t, z, y, bits, visits, rest);
    var d := ReadScan(tx.src, r, f, Sequential, scan, t, y, visits);
    if d.done {
      SameStatistics(tx, d.r, rest);
      SentExactly(f, scan, z, d.image, visits);
    }
  }

  ghost function Unsent(visits: seq<Visit>): map<Visit, Block> {
    map v | v in visits :: seq(BLOCK_SIZE, _ => -1)
  }

  lemma UnsentProgress(f: Frame, z: Image, y: Image, visits: seq<Visit>)
    requires AllInImage(f, z, visits) && SameShape(z, y)
    requires forall n, k :: 0 <= n < |visits| && 0 <= k < BLOCK_SIZE ==> y[visits[n].comp][visits[n].index][k] == 0
    ensures Progress(z, y, Unsent(visits))
  {
    forall v | v in visits
      ensures v.comp < |z| && v.index < |z[v.comp]|
      ensures HoldsBits(z[v.comp][v.index], y[v.comp][v.index], Unsent(visits)[v])
    {
      var n :| 0 <= n < |visits| && visits[n] == v;
      assert InImage(f, z, visits[n]);
    }
  }

  lemma SentExactly(f: Frame, scan: Scan, z: Image, y: Image, visits: seq<Visit>)
    requires Sound(Sequential, scan) && AllInImage(f, z, visits)
    requires Progress(z, y, BitsAfterVisits(scan, Unsent(visits), visits))
    ensures forall n :: 0 <= n < |visits| ==>
              y[visits[n].comp][visits[n].index] == z[visits[n].comp][visits[n].index]
  {
    forall n | 0 <= n < |visits|
      ensures InImage(f, z, visits[n])
      ensures y[visits[n].comp][visits[n].index] == z[visits[n].comp][visits[n].index]
    {
      var v := visits[n];
      assert InImage(f, z, v);
      var bits := BitsAfterVisits(scan, Unsent(visits), visits)[v];
      assert bits == BitsAfter(scan, Unsent(visits)[v]);
      ExactAtZero(z[v.comp][v.index], y[v.comp][v.index], bits);
    }
  }

  lemma ExactAtZero(z: Block, y: Block, bits: Block)
    requires HoldsBits(z, y, bits) && forall k :: 0 <= k < BLOCK_SIZE ==> bits[k] == 0
    ensures y == z
  {
    forall k | 0 <= k < BLOCK_SIZE
      ensures y[k] == z[k]
    {
      ExactWhenComplete(z[k], k);
    }
  }

  /** A coefficient whose last bit position is 0 has arrived exactly. */
  lemma ExactWhenComplete(x: int, k: nat)
    ensures Sent(x, k, 0) == x
  {
  }
}
