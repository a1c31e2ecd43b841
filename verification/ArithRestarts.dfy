/** Restart intervals of an arithmetic-coded scan: each segment is a code of its own. */
module ArithRestarts {
  import opened ByteStrings
  import opened IntervalCoding
  import opened CodePoints
  import opened RestartIntervals
  import opened RestartMarkers
  import opened ArithCoefficients
  import opened ArithScans
  import opened ArithImages

  /** The blocks of one MCU. */
  type VisitedMcu = seq<Visit>

  /** A scan that is being sent. */
  datatype Pass = Pass(f: Frame, routine: Routine, scan: Scan, image: Image)

  /** At the beginning of a scan, and behind every restart. */
  function ResetStates(n: nat): (s: seq<DcState>)
    ensures |s| == n
  {
    seq(n, _ => DC_RESET)
  }

  /** The state of the DC coder at that time. */
  function Zeros(n: nat): (s: seq<nat>)
    ensures |s| == n
  {
    seq(n, _ => 0)
  }

  lemma ZeroStates(n: nat)
    ensures DcStates(Zeros(n), Zeros(n)) == ResetStates(n)
  {
  }

  ghost predicate InPass(p: Pass, visits: seq<Visit>) {
    Sound(p.routine, p.scan) && AllInImage(p.f, p.image, visits)
  }

  ghost function SegmentDecisions(p: Pass, visits: seq<Visit>): seq<Decision>
    requires InPass(p, visits)
  {
    ScanDecisions(p.f, p.routine, p.scan, ResetStates(|p.f.comps|), p.image, visits)
  }

  ghost function SegmentStates(p: Pass, visits: seq<Visit>): (s: seq<DcState>)
    requires InPass(p, visits)
    ensures |s| == |p.f.comps|
  {
    StatesAfter(p.f, p.routine, p.scan, ResetStates(|p.f.comps|), p.image, visits)
  }

  ghost predicate SegmentInLimit(p: Pass, visits: seq<Visit>)
    requires InPass(p, visits)
  {
    InLimit(p.f, p.routine, p.scan, ResetStates(|p.f.comps|), p.image, visits)
  }

  /** These bytes are a code for the decisions of the segment. */
  ghost predicate SegmentBytes(p: Pass, seg: seq<VisitedMcu>, u: seq<Byte>) {
    InPass(p, Flat(seg)) && Inside(u, Run(SegmentDecisions(p, Flat(seg))).interval)
  }

  ghost predicate AllBytes(p: Pass, segs: seq<seq<VisitedMcu>>, raws: seq<seq<Byte>>) {
    |raws| == |segs| && forall k :: 0 <= k < |segs| ==> SegmentBytes(p, segs[k], raws[k])
  }

  lemma AllBytesSnoc(p: Pass, segs: seq<seq<VisitedMcu>>, raws: seq<seq<Byte>>, seg: seq<VisitedMcu>, u: seq<Byte>)
    requires AllBytes(p, segs, raws) && SegmentBytes(p, seg, u)
    ensures AllBytes(p, segs + [seg], raws + [u])
  {
    hide SegmentBytes;
  }

  /** Every DC difference of every segment is within the limit of the decoder. */
  ghost predicate SegmentsInLimit(p: Pass, segs: seq<seq<VisitedMcu>>)
    requires forall k :: 0 <= k < |segs| ==> InPass(p, Flat(segs[k]))
  {
    forall k :: 0 <= k < |segs| ==> SegmentInLimit(p, Flat(segs[k]))
  }

  lemma {:induction false} VisitsConcat(f: Frame, routine: Routine, scan: Scan, s: seq<DcState>, image: Image,
                                        visits: seq<Visit>, more: seq<Visit>)
    requires Sound(routine, scan) && |s| == |f.comps| && AllInImage(f, image, visits) && AllInImage(f, image, more)
    ensures AllInImage(f, image, visits + more)
    ensures ScanDecisions(f, routine, scan, s, image, visits + more)
         == ScanDecisions(f, routine, scan, s, image, visits)
            + ScanDecisions(f, routine, scan, StatesAfter(f, routine, scan, s, image, visits), image, more)
    ensures StatesAfter(f, routine, scan, s, image, visits + more)
         == StatesAfter(f, routine, scan, StatesAfter(f, routine, scan, s, image, visits), image, more)
    ensures InLimit(f, routine, scan, s, image, visits + more)
       <==> InLimit(f, routine, scan, s, image, visits)
            && InLimit(f, routine, scan, StatesAfter(f, routine, scan, s, image, visits), image, more)
    decreases |visits|
  {
    hide BlockDecisions, DcStateAfter, DcWithinLimit, Sound;
    BothInImage(f, image, visits, more);
    if visits == [] {
      assert visits + more == more;
    } else {
      var v := visits[0];
      assert InImage(f, image, v);
      var t := s[v.comp := DcStateAfter(f, routine, scan, v.comp, s[v.comp], image[v.comp][v.index])];
      LaterInImage(f, image, image, visits);
      assert (visits + more)[0] == v && (visits + more)[1..] == visits[1..] + more;
      VisitsConcat(f, routine, scan, t, image, visits[1..], more);
    }
  }

  lemma BothInImage(f: Frame, image: Image, visits: seq<Visit>, more: seq<Visit>)
    ensures AllInImage(f, image, visits + more) <==> AllInImage(f, image, visits) && AllInImage(f, image, more)
  {
    hide InImage;
    var all := visits + more;
    assert forall n :: 0 <= n < |visits| ==> all[n] == visits[n];
    assert forall n :: 0 <= n < |more| ==> all[|visits| + n] == more[n];
  }

  lemma NothingCoded(p: Pass)
    requires Sound(p.routine, p.scan) && |p.image| == |p.f.comps|
    ensures InPass(p, []) && SegmentDecisions(p, []) == [] && SegmentStates(p, []) == ResetStates(|p.f.comps|)
  {
  }

  /** One MCU more of a segment. */
  lemma MoreCoded(p: Pass, visits: seq<Visit>, mcu: VisitedMcu)
    requires InPass(p, visits) && InPass(p, mcu)
    ensures InPass(p, visits + mcu)
    ensures SegmentDecisions(p, visits + mcu)
         == SegmentDecisions(p, visits) + ScanDecisions(p.f, p.routine, p.scan, SegmentStates(p, visits), p.image, mcu)
    ensures SegmentStates(p, visits + mcu)
         == StatesAfter(p.f, p.routine, p.scan, SegmentStates(p, visits), p.image, mcu)
    ensures SegmentInLimit(p, visits + mcu)
       <==> SegmentInLimit(p, visits) && InLimit(p.f, p.routine, p.scan, SegmentStates(p, visits), p.image, mcu)
  {
    hide ScanDecisions, StatesAfter, InLimit, AllInImage;
    VisitsConcat(p.f, p.routine, p.scan, ResetStates(|p.f.comps|), p.image, visits, mcu);
  }

  /** Scans that code no DC leave the DC states alone. */
  lemma {:induction false} StatesUntouched(f: Frame, routine: Routine, scan: Scan, s: seq<DcState>, image: Image,
                                           visits: seq<Visit>)
    requires Sound(routine, scan) && |s| == |f.comps| && AllInImage(f, image, visits) && !CodesDc(routine)
    ensures StatesAfter(f, routine, scan, s, image, visits) == s
    decreases |visits|
  {
    if visits != [] {
      var v := visits[0];
      assert InImage(f, image, v);
      assert s[v.comp := s[v.comp]] == s;
      LaterInImage(f, image, image, visits);
      StatesUntouched(f, routine, scan, s, image, visits[1..]);
    }
  }

  lemma SameStates(p: Pass, visits: seq<Visit>)
    requires InPass(p, visits) && !CodesDc(p.routine)
    ensures SegmentStates(p, visits) == ResetStates(|p.f.comps|)
  {
    StatesUntouched(p.f, p.routine, p.scan, ResetStates(|p.f.comps|), p.image, visits);
  }

  /** Before the first MCU. */
  lemma NothingDone(p: Pass, interval: nat)
    requires Sound(p.routine, p.scan) && |p.image| == |p.f.comps|
    ensures InPass(p, []) && SegmentDecisions(p, []) == [] && SegmentStates(p, []) == ResetStates(|p.f.comps|)
    ensures Cut<VisitedMcu>(interval, []) == [[]] && Flat<Visit>([]) == []
    ensures AllBytes(p, [], []) && Sections([]) == []
  {
    NothingCoded(p);
  }

  lemma ImageOfPass(p: Pass, visits: seq<Visit>)
    requires InPass(p, visits)
    ensures Sound(p.routine, p.scan) && AllInImage(p.f, p.image, visits)
  {
  }
}
