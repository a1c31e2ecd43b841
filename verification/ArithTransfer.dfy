/** One scan through both MCU coders: encoded in segments of any restart interval, decoded in place. */
module ArithTransfer {
  import opened Coefficients
  import opened ByteStrings
  import opened IntervalCoding
  import opened CodePoints
  import opened ArithDecoder
  import opened DataSource
  import opened ArithSession
  import opened ArithCoefficients
  import opened ArithScans
  import opened ArithImages
  import opened ArithScript
  import opened ArithRestarts
  import opened RestartIntervals
  import opened RestartMarkers
  import opened McuDecoder
  import McuEncoder

  // ------------------------------------------------------------------------------- segments

  lemma AsManySegments(p: Pass, segs: seq<seq<VisitedMcu>>, raws: seq<seq<Byte>>)
    requires AllBytes(p, segs, raws)
    ensures |raws| == |segs|
  {
  }

  lemma FlatInPass(p: Pass, mcus: seq<VisitedMcu>, n: nat)
    requires InPass(p, Flat(mcus)) && n < |mcus|
    ensures InPass(p, mcus[n])
  {
    hide Flat, InImage;
    assert mcus == mcus[..n] + mcus[n..];
    FlatConcat(mcus[..n], mcus[n..]);
    FlatFirst(mcus[n..]);
    BothInImage(p.f, p.image, Flat(mcus[..n]), Flat(mcus[n..]));
    BothInImage(p.f, p.image, mcus[n], Flat(mcus[n..][1..]));
  }

  lemma {:induction false} CutInPass(p: Pass, interval: nat, mcus: seq<VisitedMcu>)
    requires InPass(p, Flat(mcus))
    ensures forall k :: 0 <= k < |Cut(interval, mcus)| ==> InPass(p, Flat(Cut(interval, mcus)[k]))
    decreases |mcus|
  {
    hide Flat, InImage;
    if interval > 0 && |mcus| > interval {
      assert mcus == mcus[..interval] + mcus[interval..];
      FlatConcat(mcus[..interval], mcus[interval..]);
      BothInImage(p.f, p.image, Flat(mcus[..interval]), Flat(mcus[interval..]));
      CutInPass(p, interval, mcus[interval..]);
    }
  }

  /** Every DC difference, taken within its segment, is within the limit. */
  ghost predicate RestartInLimit(p: Pass, interval: nat, mcus: seq<VisitedMcu>)
    requires InPass(p, Flat(mcus))
  {
    CutInPass(p, interval, mcus);
    SegmentsInLimit(p, Cut(interval, mcus))
  }

  /** Encodes all MCUs of a scan and finishes the pass. */
  method EncodeScan(ghost p: Pass, f: Frame, routine: Routine, scan: Scan, image: Image, interval: nat,
                    mcus: seq<VisitedMcu>)
    returns (out: seq<Byte>, ghost raws: seq<seq<Byte>>)
    requires p == Pass(f, routine, scan, image) && InPass(p, Flat(mcus))
    ensures AllBytes(p, Cut(interval, mcus), raws) && out == Output(raws)
  {
    hide AllBytes, Output, Cut, Flat, InPass, McuEncoder.EntropyEncoder.Coding, McuEncoder.EntropyEncoder.Paced,
         McuEncoder.EntropyEncoder.AtStart;
    ImageOfPass(p, Flat(mcus));
    var encoder := new McuEncoder.EntropyEncoder(f, routine, scan, interval, image);
    encoder.StartsCoding();
    for n := 0 to |mcus|
      invariant encoder.Coding() && encoder.Paced() && fresh(encoder) && fresh(encoder.coder)
      invariant encoder.ThisPass() == p && encoder.restartInterval == interval && encoder.mcus == mcus[..n]
    {
      FlatInPass(p, mcus, n);
      assert mcus[..n + 1] == mcus[..n] + [mcus[n]];
      encoder.EncodeMcu(image, mcus[n]);
    }
    assert mcus[..|mcus|] == mcus;
    raws := encoder.FinishPass();
    out := encoder.coder.out;
  }

  // ------------------------------------------------------------------------------- receiving

  /**
   What the visits to come will make of the bits known now is what all visits make of those known first; each
   is allowed by the bits of its block, or meets padding in a DC scan.
   */
  ghost predicate Towards(routine: Routine, scan: Scan, bits: map<Visit, Block>, all: seq<Visit>,
                          now: map<Visit, Block>, ahead: seq<Visit>) {
    && now.Keys == bits.Keys && BitsAfterVisits(scan, now, ahead) == BitsAfterVisits(scan, bits, all)
    && Admitted(routine, scan, now, ahead)
  }

  ghost predicate Admitted(routine: Routine, scan: Scan, now: map<Visit, Block>, visits: seq<Visit>) {
    && 0 <= scan.ss && scan.se < BLOCK_SIZE && VisitedOnce(visits, now.Keys)
    && (forall v :: v in now && v in visits ==> BandAllowed(scan, now[v]))
    && (forall n :: 0 <= n < |visits| ==> visits[n] in now || DcOnly(routine))
  }

  /** The bits after some of the visits. */
  lemma TowardsStep(routine: Routine, scan: Scan, bits: map<Visit, Block>, all: seq<Visit>, now: map<Visit, Block>,
                    m: seq<Visit>, rest: seq<Visit>)
    requires Towards(routine, scan, bits, all, now, m + rest)
    ensures Admitted(routine, scan, now, m)
    ensures Towards(routine, scan, bits, all, BitsAfterVisits(scan, now, m), rest)
  {
    hide BitsAfter, BandAllowed;
    var ahead, next := m + rest, BitsAfterVisits(scan, now, m);
    assert forall i :: 0 <= i < |m| ==> ahead[i] == m[i];
    assert forall i :: 0 <= i < |rest| ==> ahead[|m| + i] == rest[i];
    forall v | v in now && v in rest
      ensures v !in m && next[v] == now[v] && v in ahead
    {
    }
    assert BitsAfterVisits(scan, next, rest) == BitsAfterVisits(scan, now, ahead);
  }

  lemma NoneAhead(routine: Routine, scan: Scan, bits: map<Visit, Block>, all: seq<Visit>, now: map<Visit, Block>)
    requires Towards(routine, scan, bits, all, now, [])
    ensures now == BitsAfterVisits(scan, bits, all)
  {
    hide BitsAfter, BandAllowed;
    assert BitsAfterVisits(scan, now, []) == now;
  }

  lemma WalkAdmits(routine: Routine, scan: Scan, bits: map<Visit, Block>, visits: seq<Visit>)
    requires WalkOk(routine, scan, visits, bits.Keys) && Sound(routine, scan)
    requires forall v :: v in bits && v in visits ==> BandAllowed(scan, bits[v])
    ensures Towards(routine, scan, bits, visits, bits, visits)
  {
    hide BitsAfterVisits, BandAllowed;
  }

  /**
   Inside segment k: the source holds what remains of the output, the decisions of the MCUs `rest` are to
   come, and whatever can still fail in the segment is among them.
   */
  ghost predicate Receiving(p: Pass, segs: seq<seq<VisitedMcu>>, raws: seq<seq<Byte>>, tail: seq<Byte>,
                            at: Position<VisitedMcu>, src: seq<Byte>, s: seq<DcState>, r: Reader, t: seq<DcState>) {
    && at.k < |raws| && at.k < |segs| && src == OutputFrom(raws, at.k) + tail
    && InPass(p, Flat(at.rest)) && InPass(p, Flat(segs[at.k])) && |s| == |p.f.comps| && StatesAgree(s, t)
    && (exists tx: Transmission :: tx.src == src &&
          Coming(tx, r, ScanDecisions(p.f, p.routine, p.scan, s, p.image, Flat(at.rest))))
    && (SegmentInLimit(p, Flat(segs[at.k])) <==> InLimit(p.f, p.routine, p.scan, s, p.image, Flat(at.rest)))
  }

  /** At the beginning of segment k. */
  lemma ReceivesAt(p: Pass, segs: seq<seq<VisitedMcu>>, raws: seq<seq<Byte>>, tail: seq<Byte>, k: nat, src: seq<Byte>)
    requires k < |segs| && AllBytes(p, segs, raws) && src == OutputFrom(raws, k) + tail && MarkerTail(tail)
    ensures Receiving(p, segs, raws, tail, InSegment(k, segs[k]), src, ResetStates(|p.f.comps|), RESET,
                      ResetStates(|p.f.comps|))
    ensures k + 1 < |segs| ==>
              FirstMarker(src).marker as int == RST0 + k % 8 && Behind(src) == OutputFrom(raws, k + 1) + tail
  {
    hide MarkerTail, OutputFrom, Stuff, Flat, Segment, FirstMarker, Inside, Run, ScanDecisions, InLimit, Coming, AllInImage;
    SegmentInOutput(raws, tail, k, src);
    assert SegmentBytes(p, segs[k], raws[k]);
    var tx := Transmission(src, raws[k], SegmentDecisions(p, Flat(segs[k])));
    StartsReading(tx);
    SameResetStates(|p.f.comps|);
  }

  /** The next MCU of a segment is read, or refused because of a difference that is out of range. */
  lemma StepInside(p: Pass, segs: seq<seq<VisitedMcu>>, raws: seq<seq<Byte>>, tail: seq<Byte>, m: VisitedMcu,
                   at: Position<VisitedMcu>, src: seq<Byte>, s: seq<DcState>, r: Reader, t: seq<DcState>, y: Image,
                   bits: map<Visit, Block>)
    requires Receiving(p, segs, raws, tail, at, src, s, r, t) && at.rest != [] && at.rest[0] == m
    requires Fits(p.routine, p.scan) && SixteenBit(p.image) && Progress(p.image, y, bits) && AllInImage(p.f, y, m)
    requires Admitted(p.routine, p.scan, bits, m)
    ensures InPass(p, m) && |t| == |p.f.comps|
    ensures var d := ReadScan(src, r, p.f, p.routine, p.scan, t, y, m);
            && (!d.done ==> !SegmentInLimit(p, Flat(segs[at.k])))
            && (d.done ==>
                  && Progress(p.image, d.image, BitsAfterVisits(p.scan, bits, m))
                  && Receiving(p, segs, raws, tail, InSegment(at.k, at.rest[1..]), src,
                               StatesAfter(p.f, p.routine, p.scan, s, p.image, m), d.r, d.states))
  {
    hide OutputFrom, Flat, Coming, ScanDecisions, InLimit, ReadScan, BitsAfterVisits, StatesAfter, Progress, AllInImage,
         SixteenBit, StatesAgree, SegmentInLimit, Fits, Sound;
    FlatFirst(at.rest);
    var later := Flat(at.rest[1..]);
    BothInImage(p.f, p.image, m, later);
    VisitsConcat(p.f, p.routine, p.scan, s, p.image, m, later);
    StatesLength(s, t);
    var tx: Transmission :| tx.src == src &&
      Coming(tx, r, ScanDecisions(p.f, p.routine, p.scan, s, p.image, Flat(at.rest)));
    var after := StatesAfter(p.f, p.routine, p.scan, s, p.image, m);
    ScanIsRead(tx, r, p.f, p.routine, p.scan, s, t, p.image, y, bits, m,
               ScanDecisions(p.f, p.routine, p.scan, after, p.image, later));
  }

  /** At the end of a segment, which was all in limit, the next one follows behind the marker that is expected. */
  lemma StepOver(p: Pass, interval: nat, mcus: seq<VisitedMcu>, raws: seq<seq<Byte>>, tail: seq<Byte>, n: nat,
                 at: Position<VisitedMcu>, src: seq<Byte>, s: seq<DcState>, r: Reader, t: seq<DcState>, toGo: nat,
                 num: nat)
    requires n < |mcus| && MarkerTail(tail) && AllBytes(p, Cut(interval, mcus), raws) && at.rest == []
    requires Located(interval, Cut(interval, mcus), mcus[n..], at, toGo, num)
    requires Receiving(p, Cut(interval, mcus), raws, tail, at, src, s, r, t)
    requires !CodesDc(p.routine) ==> s == ResetStates(|p.f.comps|)
    ensures var segs, zero := Cut(interval, mcus), ResetStates(|p.f.comps|);
            && interval > 0 && toGo == 0 && FirstMarker(src).marker as int == RST0 + num
            && at.k + 1 < |segs| && segs[at.k + 1] != []
            && InPass(p, Flat(segs[at.k])) && SegmentInLimit(p, Flat(segs[at.k]))
            && Located(interval, segs, mcus[n..], InSegment(at.k + 1, segs[at.k + 1]), interval, (num + 1) % 8)
            && Receiving(p, segs, raws, tail, InSegment(at.k + 1, segs[at.k + 1]), Behind(src), zero, RESET,
                         if CodesDc(p.routine) then zero else t)
  {
    hide MarkerTail, OutputFrom, Flat, Cut, FirstMarker, Behind, AllBytes, Coming, ScanDecisions, SegmentInLimit, AllInImage;
    var segs := Cut(interval, mcus);
    FlatFirst<Visit>([]);
    McuBehind(interval, mcus, n, at, toGo, num);
    ReceivesAt(p, segs, raws, tail, at.k, src);
    ReceivesAt(p, segs, raws, tail, at.k + 1, Behind(src));
  }

  /** Decodes one MCU; it is refused when a difference is out of range. */
  method ReceiveMcu(decoder: EntropyDecoder, routine: Routine, scan: Scan, storage: Storage, mcu: VisitedMcu,
                    ghost p: Pass, ghost segs: seq<seq<VisitedMcu>>, ghost raws: seq<seq<Byte>>, ghost tail: seq<Byte>,
                    ghost at: Position<VisitedMcu>, ghost src: seq<Byte>, ghost s: seq<DcState>, ghost r: Reader,
                    ghost t: seq<DcState>, ghost now: map<Visit, Block>)
    returns (ok: bool, ghost after: seq<DcState>)
    requires decoder.Ready() && decoder.coder.ct != -1
    requires decoder.f == p.f && routine == p.routine && scan == p.scan && InPass(p, mcu)
    requires Fits(routine, scan) && SixteenBit(p.image) && Separate(storage)
    requires Receiving(p, segs, raws, tail, at, src, s, r, t) && at.rest != [] && at.rest[0] == mcu
    requires !CodesDc(routine) ==> s == ResetStates(|p.f.comps|)
    requires Progress(p.image, Contents(storage), now) && Admitted(routine, scan, now, mcu)
    requires if decoder.RestartDue() then
               && FirstMarker(decoder.coder.src).marker as int == RST0 + decoder.nextRestartNum
               && src == Behind(decoder.coder.src) && r == RESET
               && t == if CodesDc(routine) then ResetStates(|p.f.comps|) else decoder.States()
             else src == decoder.coder.src && r == decoder.coder.View() && t == decoder.States()
    modifies decoder, decoder.coder, Arrays(storage)
    ensures !ok ==> InPass(p, Flat(segs[at.k])) && !SegmentInLimit(p, Flat(segs[at.k]))
    ensures ok ==>
              && decoder.Ready() && decoder.coder.ct != -1 && (decoder.coder == old(decoder.coder) || fresh(decoder.coder))
              && Receiving(p, segs, raws, tail, InSegment(at.k, at.rest[1..]), decoder.coder.src, after,
                           decoder.coder.View(), decoder.States())
              && (!CodesDc(routine) ==> after == ResetStates(|p.f.comps|))
              && Progress(p.image, Contents(storage), BitsAfterVisits(scan, now, mcu))
              && if old(decoder.RestartDue()) then
                   decoder.restartsToGo == decoder.restartInterval - 1
                   && decoder.nextRestartNum == (old(decoder.nextRestartNum) + 1) % 8
                 else
                   decoder.restartsToGo == old(decoder.restartsToGo) - (if decoder.restartInterval > 0 then 1 else 0)
                   && decoder.nextRestartNum == old(decoder.nextRestartNum)
  {
    hide Sound, AllInImage, SixteenBit, Separate, Progress, Contents, Flat, Receiving, SegmentInLimit, BitsAfterVisits,
         ReadScan, FirstMarker, Behind, StatesAfter, Admitted, Decoder.Placed;
    ImageOfPass(p, mcu);
    SameVisits(p.f, p.image, Contents(storage), mcu, now);
    SegmentOf(p, segs, raws, tail, at, src, s, r, t);
    StepInside(p, segs, raws, tail, mcu, at, src, s, r, t, Contents(storage), now);
    after := StatesAfter(p.f, routine, scan, s, p.image, mcu);
    if !CodesDc(routine) {
      StatesUntouched(p.f, routine, scan, s, p.image, mcu);
    }
    ok := decoder.DecodeMcu(routine, scan, storage, mcu);
    ok := ok && decoder.coder.ct != -1;
  }

  lemma SegmentOf(p: Pass, segs: seq<seq<VisitedMcu>>, raws: seq<seq<Byte>>, tail: seq<Byte>,
                  at: Position<VisitedMcu>, src: seq<Byte>, s: seq<DcState>, r: Reader, t: seq<DcState>)
    requires Receiving(p, segs, raws, tail, at, src, s, r, t)
    ensures at.k < |segs| && InPass(p, Flat(segs[at.k])) && |s| == |p.f.comps|
  {
  }

  /**
   Sends a scan, in segments of any restart interval, and receives it into `storage`: decoding reports no
   error if and only if every DC difference is within the limit, and then every content block has advanced to
   the scan's bit positions.
   */
  method TransferScan(f: Frame, routine: Routine, scan: Scan, image: Image, interval: nat, mcus: seq<VisitedMcu>,
                      tail: seq<Byte>, storage: Storage, ghost bits: map<Visit, Block>)
    returns (ok: bool)
    requires Fits(routine, scan) && AllInImage(f, image, Flat(mcus)) && SixteenBit(image) && MarkerTail(tail)
    requires Separate(storage) && Progress(image, Contents(storage), bits)
    requires WalkOk(routine, scan, Flat(mcus), bits.Keys)
    requires forall v :: v in bits && v in Flat(mcus) ==> BandAllowed(scan, bits[v])
    modifies Arrays(storage)
    ensures InPass(Pass(f, routine, scan, image), Flat(mcus))
    ensures ok <==> RestartInLimit(Pass(f, routine, scan, image), interval, mcus)
    ensures ok ==> Progress(image, Contents(storage), BitsAfterVisits(scan, bits, Flat(mcus)))
  {
    hide Sound, AllInImage, SixteenBit, MarkerTail, Separate, Progress, Contents, WalkOk, BandAllowed, Flat, Cut, AllBytes,
         Output, OutputFrom, Located, Receiving, Towards, RestartInLimit, SegmentInLimit, BitsAfterVisits, ReadScan,
         FirstMarker, Behind, Admitted, BeforeInLimit, InPass, Decoder.Placed;
    ghost var p := Pass(f, routine, scan, image);
    FitsIsSound(routine, scan);
    WholeInPass(p, Flat(mcus));
    var out;
    ghost var raws;
    out, raws := EncodeScan(p, f, routine, scan, image, interval, mcus);
    ghost var segs := Cut(interval, mcus);
    ghost var at, s, now := InSegment(0, segs[0]), ResetStates(|f.comps|), bits;
    AtFirstMcu(interval, mcus);
    AsManySegments(p, segs, raws);
    WholeOutput(raws);
    ReceivesAt(p, segs, raws, tail, 0, out + tail);
    WalkAdmits(routine, scan, bits, Flat(mcus));
    NoneBefore(p, segs);
    assert mcus[0..] == mcus;
    var decoder := new EntropyDecoder(f, interval, out + tail);
    for n := 0 to |mcus|
      invariant decoder.Ready() && fresh(decoder) && fresh(decoder.coder) && decoder.f == f
      invariant decoder.restartInterval == interval && decoder.coder.ct != -1 && at.k < |segs|
      invariant Located(interval, segs, mcus[n..], at, decoder.restartsToGo, decoder.nextRestartNum)
      invariant Receiving(p, segs, raws, tail, at, decoder.coder.src, s, decoder.coder.View(), decoder.States())
      invariant !CodesDc(routine) ==> s == ResetStates(|f.comps|)
      invariant BeforeInLimit(p, segs, at.k) && Progress(image, Contents(storage), now)
      invariant Towards(routine, scan, bits, Flat(mcus), now, Flat(mcus[n..]))
    {
      FlatInPass(p, mcus, n);
      FlatFirst(mcus[n..]);
      assert mcus[n..][0] == mcus[n] && mcus[n..][1..] == mcus[n + 1..];
      TowardsStep(routine, scan, bits, Flat(mcus), now, mcus[n], Flat(mcus[n + 1..]));
      ghost var from, r, t := decoder.coder.src, decoder.coder.View(), decoder.States();
      ghost var toGo, num := decoder.restartsToGo, decoder.nextRestartNum;
      if at.rest == [] {
        StepOver(p, interval, mcus, raws, tail, n, at, from, s, r, t, toGo, num);
        OneMore(p, segs, at.k);
        at, from, s, r := InSegment(at.k + 1, segs[at.k + 1]), Behind(from), ResetStates(|f.comps|), RESET;
        t, toGo, num := if CodesDc(routine) then s else t, interval, (num + 1) % 8;
      }
      McuInside(interval, mcus, n, at, toGo, num);
      ok, s := ReceiveMcu(decoder, routine, scan, storage, mcus[n], p, segs, raws, tail, at, from, s, r, t, now);
      if !ok {
        OneBeyond(p, interval, mcus, at.k);
        return;
      }
      at, now := InSegment(at.k, at.rest[1..]), BitsAfterVisits(scan, now, mcus[n]);
    }
    AllReceived(p, interval, mcus, raws, tail, at, decoder.coder.src, s, decoder.coder.View(), decoder.States(),
                decoder.restartsToGo, decoder.nextRestartNum);
    NoneAhead(routine, scan, bits, Flat(mcus), now);
    ok := true;
  }

  /** Once all MCUs are there, every segment was in limit. */
  lemma AllReceived(p: Pass, interval: nat, mcus: seq<VisitedMcu>, raws: seq<seq<Byte>>, tail: seq<Byte>,
                    at: Position<VisitedMcu>, src: seq<Byte>, s: seq<DcState>, r: Reader, t: seq<DcState>, toGo: nat,
                    num: nat)
    requires InPass(p, Flat(mcus)) && Receiving(p, Cut(interval, mcus), raws, tail, at, src, s, r, t)
    requires Located(interval, Cut(interval, mcus), mcus[|mcus|..], at, toGo, num)
    requires BeforeInLimit(p, Cut(interval, mcus), at.k)
    ensures RestartInLimit(p, interval, mcus) && Flat(mcus[|mcus|..]) == []
  {
    hide Flat, Cut, Coming, ScanDecisions, SegmentInLimit, AllInImage, Located;
    FlatFirst<Visit>([]);
    FlatFirst(mcus[|mcus|..]);
    NothingAhead(interval, mcus, at, toGo, num);
  }

  lemma SameVisits(f: Frame, z: Image, y: Image, visits: seq<Visit>, bits: map<Visit, Block>)
    requires AllInImage(f, z, visits) && Progress(z, y, bits)
    ensures AllInImage(f, y, visits) && |z| == |f.comps|
  {
    ShapeKeepsVisits(f, z, y, visits);
  }

  /** The segments in front of segment k were all in limit. */
  ghost predicate BeforeInLimit(p: Pass, segs: seq<seq<VisitedMcu>>, k: nat) {
    k <= |segs| && forall j :: 0 <= j < k ==> InPass(p, Flat(segs[j])) && SegmentInLimit(p, Flat(segs[j]))
  }

  lemma OneMore(p: Pass, segs: seq<seq<VisitedMcu>>, k: nat)
    requires BeforeInLimit(p, segs, k) && k < |segs| && InPass(p, Flat(segs[k])) && SegmentInLimit(p, Flat(segs[k]))
    ensures BeforeInLimit(p, segs, k + 1)
  {
  }

  lemma WholeInPass(p: Pass, visits: seq<Visit>)
    requires Sound(p.routine, p.scan) && AllInImage(p.f, p.image, visits)
    ensures InPass(p, visits)
  {
  }

  lemma NoneBefore(p: Pass, segs: seq<seq<VisitedMcu>>)
    ensures BeforeInLimit(p, segs, 0)
  {
  }

  lemma OneBeyond(p: Pass, interval: nat, mcus: seq<VisitedMcu>, k: nat)
    requires InPass(p, Flat(mcus)) && k < |Cut(interval, mcus)|
    requires InPass(p, Flat(Cut(interval, mcus)[k])) && !SegmentInLimit(p, Flat(Cut(interval, mcus)[k]))
    ensures !RestartInLimit(p, interval, mcus)
  {
  }
}
