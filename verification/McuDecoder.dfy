/** The MCU decoding routines of jdarith.c, writing coefficient blocks in place. */
module McuDecoder {
  import opened Coefficients
  import opened Powers
  import opened ByteStrings
  import opened IntervalCoding
  import opened ArithDecoder
  import opened ArithSession
  import opened ArithCoefficients
  import opened ArithBlocks
  import opened ArithScans
  import opened ArithImages
  import opened ArithRestarts
  import opened RestartMarkers
  import opened DataSource

  lemma Pow2IsLimit(e: nat)
    requires e <= MAX_CATEGORY
    ensures Pow2(e) == 0x8000 <==> e == MAX_CATEGORY
    ensures 2 * Pow2(e) == Pow2(e + 1)
  {
    Pow2Values();
    DoublePower(15);
    if e < 15 {
      Pow2Monotone(e + 1, 15);
    }
  }

  /** The blocks of an image, each in storage of its own. */
  type Storage = seq<seq<array<int>>>

  ghost predicate Separate(image: Storage) {
    && (forall c, i :: 0 <= c < |image| && 0 <= i < |image[c]| ==> image[c][i].Length == BLOCK_SIZE)
    && (forall c, i, d, j ::
          0 <= c < |image| && 0 <= i < |image[c]| && 0 <= d < |image| && 0 <= j < |image[d]| && (c != d || i != j) ==>
          image[c][i] != image[d][j])
  }

  ghost function Arrays(image: Storage): set<array<int>> {
    set c, i | 0 <= c < |image| && 0 <= i < |image[c]| :: image[c][i]
  }

  ghost function Contents(image: Storage): (z: Image)
    requires Separate(image)
    reads Arrays(image)
    ensures |z| == |image|
    ensures forall c :: 0 <= c < |image| ==> |z[c]| == |image[c]|
    ensures forall c, i :: 0 <= c < |image| && 0 <= i < |image[c]| ==> z[c][i] == image[c][i][..]
  {
    seq(|image|, c requires 0 <= c < |image| reads Arrays(image) =>
      RowContents(image, c))
  }

  ghost function RowContents(image: Storage, c: nat): (row: seq<Block>)
    requires Separate(image) && c < |image|
    reads Arrays(image)
    ensures |row| == |image[c]|
    ensures forall i :: 0 <= i < |image[c]| ==> row[i] == image[c][i][..]
  {
    seq(|image[c]|, i requires 0 <= i < |image[c]| reads Arrays(image) => image[c][i][..])
  }

  class EntropyDecoder {
    const f: Frame
    const restartInterval: nat
    var coder: Decoder          // the segment being read, and what follows it in the source
    var lastDcVal: seq<int>
    var dcContext: seq<nat>
    var restartsToGo: nat       // MCUs left in this restart interval
    var nextRestartNum: nat     // next restart number expected (0-7)

    ghost predicate Valid()
      reads `coder, `lastDcVal, `dcContext, coder
    {
      |lastDcVal| == |dcContext| == |f.comps| && Ok(coder.View())
    }

    /** Between two MCUs: either decoding goes on, or an error has stopped it until the next restart. */
    ghost predicate Ready()
      reads this, coder
    {
      && |lastDcVal| == |dcContext| == |f.comps| && (coder.ct == -1 || Ok(coder.View()))
      && coder.Placed() && nextRestartNum < 8
    }

    ghost function States(): seq<DcState>
      requires |lastDcVal| == |dcContext| == |f.comps|
      reads `lastDcVal, `dcContext
    {
      DcStates(lastDcVal, dcContext)
    }

    /** A restart marker has to be read before the next MCU. */
    predicate RestartDue()
      reads `restartsToGo
    {
      restartInterval > 0 && restartsToGo == 0
    }

    constructor (frame: Frame, restartInterval: nat, source: seq<Byte>)
      ensures Valid() && Ready() && fresh(coder) && f == frame && this.restartInterval == restartInterval
      ensures coder.src == source && coder.View() == RESET
      ensures States() == ResetStates(|frame.comps|) && restartsToGo == restartInterval && nextRestartNum == 0
    {
      f, this.restartInterval := frame, restartInterval;
      coder := new Decoder(source);
      lastDcVal, dcContext := Zeros(|frame.comps|), Zeros(|frame.comps|);
      restartsToGo, nextRestartNum := restartInterval, 0;
      new;
      hide Decoder.Placed, Zeros;
      ZeroStates(|frame.comps|);
    }

    /**
     process_restart: reads on to the next marker. If it is the one expected, statistics, registers and, where
     the scan codes DC values, their states are as at the start of a scan behind the marker, whatever has
     become of the data in front of it.
     */
    method ProcessRestart(routine: Routine) returns (ok: bool)
      requires Ready()
      modifies `coder, `lastDcVal, `dcContext, `restartsToGo, `nextRestartNum
      ensures ok <==> FirstMarker(old(coder.src)).marker as int == RST0 + old(nextRestartNum)
      ensures ok ==>
                && Valid() && Ready() && fresh(coder) && coder.src == Behind(old(coder.src)) && coder.View() == RESET
                && States() == (if CodesDc(routine) then ResetStates(|f.comps|) else old(States()))
                && restartsToGo == restartInterval && nextRestartNum == (old(nextRestartNum) + 1) % 8
    {
      hide Zeros, SegmentEnd;
      var end := Input(coder.pos, coder.unreadMarker);
      EndIsNext(coder.src, end);
      EndInSource(coder.src, 0);
      if coder.unreadMarker == 0 {
        end := NextMarker(coder.src, coder.pos);
      }
      if end.marker as int != RST0 + nextRestartNum {
        return false;
      }
      nextRestartNum := (nextRestartNum + 1) % 8;
      if CodesDc(routine) {
        lastDcVal, dcContext := Zeros(|f.comps|), Zeros(|f.comps|);
        ZeroStates(|f.comps|);
      }
      coder := new Decoder(coder.src[end.pos..]);
      restartsToGo := restartInterval;
      ok := true;
    }

    /** Figure F.23 from the first doubling on. */
    method DecodeCategory(st0: Bin, m0: nat, ghost e0: nat) returns (ok: bool, m: nat, st: Bin)
      requires Ok(coder.View()) && e0 < MAX_CATEGORY && m0 == Pow2(e0)
      modifies coder
      ensures old(coder.Placed()) ==> coder.Placed()
      ensures ok ==> Ok(coder.View())
      ensures match ReadCategory(coder.src, old(coder.View()), st0, e0)
              case Category(e, s, r) => ok && m == Pow2(e) && st == s && coder.View() == r
              case Overflow(r) => !ok
    {
      hide Decoder.Placed, Decoded;
      ghost var e := e0;
      m, st := m0, st0;
      ok := true;
      var more := coder.Decode(st);
      while more
        invariant (old(coder.Placed()) ==> coder.Placed())
        invariant Ok(coder.View()) && e < MAX_CATEGORY && m == Pow2(e)
        invariant ReadCategory(coder.src, old(coder.View()), st0, e0)
               == if !more then Category(e, st, coder.View())
                  else if e + 1 == MAX_CATEGORY then Overflow(coder.View())
                  else ReadCategory(coder.src, coder.View(), Plus(st, 1), e + 1)
        decreases MAX_CATEGORY - e, more
      {
        Pow2IsLimit(e);
        Pow2IsLimit(e + 1);
        m := 2 * m;
        if m == 0x8000 {
          return false, m, st;
        }
        st := Plus(st, 1);
        e := e + 1;
        more := coder.Decode(st);
      }
    }

    /** Figure F.24: v |= m for each bit that is set. */
    method DecodePattern(st: Bin, m0: nat, v0: int, ghost e0: nat) returns (v: int)
      requires Ok(coder.View()) && (m0 == Pow2(e0) || (m0 == 0 && e0 == 0))
      modifies coder
      ensures old(coder.Placed()) ==> coder.Placed()
      ensures Ok(coder.View())
      ensures (v, coder.View()) == ReadPattern(coder.src, old(coder.View()), st, e0, v0)
    {
      hide Decoder.Placed, Decoded;
      ghost var e := e0;
      var m := m0;
      v := v0;
      while m / 2 != 0
        invariant (old(coder.Placed()) ==> coder.Placed())
        invariant Ok(coder.View()) && (m == Pow2(e) || (m == 0 && e == 0))
        invariant ReadPattern(coder.src, coder.View(), st, e, v) == ReadPattern(coder.src, old(coder.View()), st, e0, v0)
        decreases m
      {
        m := m / 2;
        e := e - 1;
        var bit := coder.Decode(st);
        if bit {
          v := v + m;
        }
      }
    }

    method DecodeDcMagnitude(tbl: Table, st0: Bin) returns (ok: bool, category: nat, v: int)
      requires Ok(coder.View())
      modifies coder
      ensures old(coder.Placed()) ==> coder.Placed()
      ensures ok ==> Ok(coder.View())
      ensures match ReadDcMagnitude(coder.src, old(coder.View()), tbl, st0)
              case Magnitude(m, w, r) => ok && category == m && v == w && coder.View() == r
              case BadMagnitude(r) => !ok
    {
      hide Decoder.Placed, Decoded, ReadCategory, ReadPattern;
      var st := st0;
      ghost var e := 0;
      category, v := 0, 0;
      var more := coder.Decode(st);
      if more {
        assert Pow2(0) == 1;
        ghost var c := ReadCategory(coder.src, coder.View(), DcX1(tbl), 0);
        ok, category, st := DecodeCategory(DcX1(tbl), 1, 0);
        if !ok {
          return;
        }
        e := c.e;
      }
      ok := true;
      if category == 0 {
        NoPattern(coder.src, coder.View(), Plus(st, 14), 0);
      }
      v := DecodePattern(Plus(st, 14), category, category, e);
    }

    lemma NoPattern(src: seq<Byte>, r: Reader, st: Bin, v: int)
      ensures ReadPattern(src, r, st, 0, v) == (v, r)
    {
    }

    method DecodeAcMagnitude(cond: Conditioning, tbl: Table, k: nat, st0: Bin) returns (ok: bool, v: int)
      requires Ok(coder.View())
      modifies coder
      ensures old(coder.Placed()) ==> coder.Placed()
      ensures ok ==> Ok(coder.View())
      ensures match ReadAcMagnitude(coder.src, old(coder.View()), cond, tbl, k, st0)
              case Magnitude(_, w, r) => ok && v == w && coder.View() == r
              case BadMagnitude(r) => !ok
    {
      hide Decoder.Placed, Decoded, ReadCategory, ReadPattern, AcX2;
      var m, st := 0, st0;
      ghost var e := 0;
      v := 0;
      var more := coder.Decode(st);
      if more {
        m := 1;
        more := coder.Decode(st);
        if more {
          assert Pow2(1) == 2;
          ghost var c := ReadCategory(coder.src, coder.View(), AcX2(cond, tbl, k), 1);
          ok, m, st := DecodeCategory(AcX2(cond, tbl, k), 2, 1);
          if !ok {
            return;
          }
          e := c.e;
        } else {
          assert Pow2(0) == 1;
        }
      }
      ok := true;
      if e == 0 {
        NoPattern(coder.src, coder.View(), Plus(st, 14), m);
      }
      v := DecodePattern(Plus(st, 14), m, m, e);
    }

    /** Figures F.19 and F.21 to F.24; a magnitude overflow makes it fail. */
    method DecodeDc(c: nat) returns (ok: bool)
      requires Valid() && c < |f.comps|
      modifies `lastDcVal, `dcContext, coder
      ensures old(coder.Placed()) ==> coder.Placed()
      ensures |lastDcVal| == |dcContext| == |f.comps|
      ensures ok ==> Valid()
      ensures match ReadDc(coder.src, old(coder.View()), f.cond, f.comps[c].dcTbl, old(States())[c])
              case DcRead(s, r) => ok && States() == old(States())[c := s] && coder.View() == r
              case DcBad(r) => !ok && States() == old(States())
    {
      hide Decoder.Placed, Decoded, ReadDcMagnitude, Pow2, DcContext;
      var tbl := f.comps[c].dcTbl;
      var st := Dc(tbl, dcContext[c]);
      var nonzero := coder.Decode(st);
      if !nonzero {
        dcContext := dcContext[c := 0];
        return true;
      }
      var v, context;
      ok, v, context := DecodeDifference(tbl, st);
      if !ok {
        return;
      }
      dcContext := dcContext[c := context];
      lastDcVal := lastDcVal[c := (lastDcVal[c] + v) % 0x1_0000];
    }

    /** A nonzero difference and its conditioning category. */
    method DecodeDifference(tbl: Table, st: Bin) returns (ok: bool, diff: int, context: nat)
      requires Ok(coder.View())
      modifies coder
      ensures old(coder.Placed()) ==> coder.Placed()
      ensures ok ==> Ok(coder.View())
      ensures var (negative, r2) := Next(coder.src, old(coder.View()), Plus(st, 1));
              match ReadDcMagnitude(coder.src, r2, tbl, Plus(st, if negative then 3 else 2))
              case BadMagnitude(r) => !ok
              case Magnitude(m, v, r) =>
                && ok && coder.View() == r
                && diff == (if negative then -(v + 1) else v + 1)
                && context == DcContext(f.cond, tbl, m, negative)
    {
      hide Decoder.Placed, Decoded, ReadDcMagnitude, Pow2;
      diff, context := 0, 0;
      var sign := coder.Decode(Plus(st, 1));
      var m, v;
      ok, m, v := DecodeDcMagnitude(tbl, Plus(st, if sign then 3 else 2));
      if !ok {
        return;
      }
      context := (if m < Pow2(f.cond.dcL[tbl]) / 2 then 0
                  else if m > Pow2(f.cond.dcU[tbl]) / 2 then 12 + if sign then 4 else 0
                  else 4 + if sign then 4 else 0);
      diff := v + 1;
      if sign {
        diff := -diff;
      }
    }

    /** Figure F.20 over the band from ss on; an overflow makes it fail in the middle of the block. */
    method DecodeBand(b: Band, block: array<int>, ss: nat) returns (ok: bool)
      requires Ok(coder.View()) && 1 <= ss && b.se < BLOCK_SIZE && block.Length == BLOCK_SIZE
      modifies coder, block
      ensures old(coder.Placed()) ==> coder.Placed()
      ensures ok ==> Ok(coder.View())
      ensures match ReadBand(coder.src, old(coder.View()), b, old(block[..]), ss)
              case BlockRead(z, r) => ok && block[..] == z && coder.View() == r
              case BlockBad(z, r) => !ok && block[..] == z
    {
      hide Decoder.Placed, Decoded, ReadAcMagnitude, Jcoef, AcBin, Pow2;
      ghost var result := ReadBand(coder.src, coder.View(), b, block[..], ss);
      var k := ss;
      while k <= b.se
        invariant (old(coder.Placed()) ==> coder.Placed())
        invariant 1 <= k && Ok(coder.View())
        invariant result == ReadBand(coder.src, coder.View(), b, block[..], k)
      {
        var eob := coder.Decode(AcBin(b.tbl, k, 0));
        if eob {
          return true;
        }
        while true
          invariant (old(coder.Placed()) ==> coder.Placed())
          invariant 1 <= k <= b.se && Ok(coder.View())
          invariant result == ReadRun(coder.src, coder.View(), b, block[..], k)
          decreases b.se - k
        {
          var significant := coder.Decode(AcBin(b.tbl, k, 1));
          if significant {
            break;
          }
          k := k + 1;
          if k > b.se {
            return false;
          }
        }
        var sign := coder.Decode(Fixed);
        var v;
        ok, v := DecodeAcMagnitude(b.cond, b.tbl, k, AcBin(b.tbl, k, 2));
        if !ok {
          return;
        }
        v := v + 1;
        if sign {
          v := -v;
        }
        block[k] := Jcoef(v * Pow2(b.al));
        k := k + 1;
      }
      ok := true;
    }

    /** From position k0 on up to the next coefficient that is sent a bit. */
    method DecodeRefinedRun(b: Band, block: array<int>, k0: nat, kex: nat) returns (ok: bool, k: nat)
      requires Ok(coder.View()) && 1 <= k0 <= b.se < BLOCK_SIZE && block.Length == BLOCK_SIZE
      modifies coder, block
      ensures old(coder.Placed()) ==> coder.Placed()
      ensures Ok(coder.View()) && (ok ==> k0 <= k <= b.se)
      ensures ReadRefineRun(coder.src, old(coder.View()), b, old(block[..]), k0, kex)
           == if ok then ReadRefine(coder.src, coder.View(), b, block[..], k + 1, kex)
              else BlockBad(block[..], coder.View())
    {
      hide Decoder.Placed, Decoded, Jcoef, AcBin, Pow2, LastNonzero;
      ghost var result := ReadRefineRun(coder.src, coder.View(), b, block[..], k0, kex);
      var p1: int := Pow2(b.al);
      var m1: int := -p1;
      ok, k := true, k0;
      while true
        invariant (old(coder.Placed()) ==> coder.Placed())
        invariant k0 <= k <= b.se && Ok(coder.View())
        invariant result == ReadRefineRun(coder.src, coder.View(), b, block[..], k, kex)
        decreases b.se - k
      {
        if block[k] != 0 {
          var correct := coder.Decode(AcBin(b.tbl, k, 2));
          if correct {
            block[k] := Jcoef(block[k] + if block[k] < 0 then m1 else p1);
          }
          break;
        }
        var significant := coder.Decode(AcBin(b.tbl, k, 1));
        if significant {
          var sign := coder.Decode(Fixed);
          block[k] := Jcoef(if sign then m1 else p1);
          break;
        }
        k := k + 1;
        if k > b.se {
          return false, k;
        }
      }
    }

    /** The refinement of the band from ss on (decode_mcu_AC_refine). */
    method DecodeRefinedBand(b: Band, block: array<int>, ss: nat) returns (ok: bool)
      requires Ok(coder.View()) && 1 <= ss && b.se < BLOCK_SIZE && block.Length == BLOCK_SIZE
      modifies coder, block
      ensures old(coder.Placed()) ==> coder.Placed()
      ensures ok ==> Ok(coder.View())
      ensures match ReadRefine(coder.src, old(coder.View()), b, old(block[..]), ss, LastNonzero(old(block[..]), b.se))
              case BlockRead(z, r) => ok && block[..] == z && coder.View() == r
              case BlockBad(z, r) => !ok && block[..] == z
    {
      hide Decoder.Placed, Decoded, Jcoef, AcBin, Pow2, LastNonzero;
      var kex := FindNonzero(block, b.se);
      ghost var result := ReadRefine(coder.src, coder.View(), b, block[..], ss, kex);
      var k := ss;
      while k <= b.se
        invariant (old(coder.Placed()) ==> coder.Placed())
        invariant 1 <= k && Ok(coder.View())
        invariant result == ReadRefine(coder.src, coder.View(), b, block[..], k, kex)
      {
        if k > kex {
          var eob := coder.Decode(AcBin(b.tbl, k, 0));
          if eob {
            return true;
          }
        }
        ok, k := DecodeRefinedRun(b, block, k, kex);
        if !ok {
          return;
        }
        k := k + 1;
      }
      ok := true;
    }

    method FindNonzero(block: array<int>, from: nat) returns (kex: nat)
      requires from < BLOCK_SIZE && block.Length == BLOCK_SIZE
      ensures kex == LastNonzero(block[..], from)
    {
      kex := from;
      while kex > 0 && block[kex] == 0
        invariant kex <= from && LastNonzero(block[..], kex) == LastNonzero(block[..], from)
      {
        kex := kex - 1;
      }
    }

    method DecodeDcBlock(scan: Scan, c: nat, block: array<int>) returns (ok: bool)
      requires Valid() && c < |f.comps| && 0 <= scan.al && block.Length == BLOCK_SIZE
      modifies `lastDcVal, `dcContext, coder, block
      ensures old(coder.Placed()) ==> coder.Placed()
      ensures |lastDcVal| == |dcContext| == |f.comps|
      ensures ok ==> Valid()
      ensures match ReadDcBlock(coder.src, old(coder.View()), f, scan, c, old(States())[c], old(block[..]))
              case VisitRead(y, s, r) =>
                ok && block[..] == y && States() == old(States())[c := s] && coder.View() == r
              case VisitBad(y, s, r) => !ok && block[..] == y && States() == old(States())[c := s]
    {
      hide Decoder.Placed, Decoded, ReadDc, Jcoef, Pow2;
      ok := DecodeDc(c);
      if ok {
        assert States()[c].last == lastDcVal[c];
        block[0] := Jcoef(lastDcVal[c] * Pow2(scan.al));
        assert block[..] == old(block[..])[0 := Jcoef(lastDcVal[c] * Pow2(scan.al))];
      }
    }

    /** One block of an MCU, by the routine that start_pass selected; ct is -1 after an error. */
    method DecodeBlock(routine: Routine, scan: Scan, c: nat, block: array<int>)
      requires Valid() && c < |f.comps| && Sound(routine, scan) && block.Length == BLOCK_SIZE
      modifies `lastDcVal, `dcContext, coder, block
      ensures old(coder.Placed()) ==> coder.Placed()
      ensures |lastDcVal| == |dcContext| == |f.comps|
      ensures var d := ReadBlock(coder.src, old(coder.View()), f, routine, scan, c, old(States())[c], old(block[..]));
              && block[..] == d.y && States() == old(States())[c := d.s]
              && if d.VisitRead? then Valid() && coder.View() == d.r else coder.ct == -1
    {
      hide Decoder.Placed, Decoded, ReadDcBlock, ReadBand, ReadRefine, SetBit;
      var ok := true;
      if CodesDc(routine) {
        ok := DecodeDcBlock(scan, c, block);
        if !ok {
          coder.ct := -1;
          return;
        }
      }
      match routine {
        case Sequential =>
          ok := DecodeBand(AcBand(f, c, scan), block, 1);
        case DcFirst =>
        case AcFirst =>
          ok := DecodeBand(AcBand(f, c, scan), block, scan.ss);
        case DcRefine =>
          var bit := coder.Decode(Fixed);
          if bit {
            block[0] := SetBit(block[0], scan.al);
            assert block[..] == old(block[..])[0 := SetBit(old(block[0]), scan.al)];
          }
        case AcRefine =>
          ok := DecodeRefinedBand(AcBand(f, c, scan), block, scan.ss);
      }
      if !ok {
        coder.ct := -1;
      }
    }

    method DecodeVisit(routine: Routine, scan: Scan, image: Storage, v: Visit)
      requires Valid() && Sound(routine, scan) && Separate(image)
      requires InImage(f, Contents(image), v)
      modifies `lastDcVal, `dcContext, coder, Arrays(image)
      ensures old(coder.Placed()) ==> coder.Placed()
      ensures |lastDcVal| == |dcContext| == |f.comps|
      ensures var before := old(Contents(image));
              var d := ReadBlock(coder.src, old(coder.View()), f, routine, scan, v.comp, old(States())[v.comp],
                                 before[v.comp][v.index]);
              && Contents(image) == Put(before, v, d.y)
              && States() == old(States())[v.comp := d.s]
              && if d.VisitRead? then Valid() && coder.View() == d.r else coder.ct == -1
    {
      hide Decoder.Placed, Decoded, ReadBlock, Put, Contents, Sound;
      ghost var before := Contents(image);
      DecodeBlock(routine, scan, v.comp, image[v.comp][v.index]);
      ghost var after := Put(before, v, image[v.comp][v.index][..]);
      forall c, i | 0 <= c < |image| && 0 <= i < |image[c]|
        ensures Contents(image)[c][i] == after[c][i]
      {
      }
      SameImage(Contents(image), after);
    }

    lemma SameImage(x: Image, y: Image)
      requires SameShape(x, y)
      requires forall c, i :: 0 <= c < |x| && 0 <= i < |x[c]| ==> x[c][i] == y[c][i]
      ensures x == y
    {
      forall c | 0 <= c < |x|
        ensures x[c] == y[c]
      {
      }
    }

    /**
     One MCU. When a restart is due and the next marker is not the one expected, it fails; otherwise the MCU
     is decoded from behind the marker, or from the bits that come next. After an error nothing is decoded
     up to the next restart.
     */
    method DecodeMcu(routine: Routine, scan: Scan, image: Storage, visits: seq<Visit>) returns (ok: bool)
      requires Ready() && Sound(routine, scan) && Separate(image) && AllInImage(f, Contents(image), visits)
      modifies this, coder, Arrays(image)
      ensures ok <==> !old(RestartDue()) || FirstMarker(old(coder.src)).marker as int == RST0 + old(nextRestartNum)
      ensures ok ==> Ready() && (coder == old(coder) || fresh(coder))
      // behind a marker
      ensures ok && old(RestartDue()) ==>
                && coder.src == Behind(old(coder.src))
                && restartsToGo == restartInterval - 1 && nextRestartNum == (old(nextRestartNum) + 1) % 8
                && HasDecoded(routine, scan, RESET, if CodesDc(routine) then ResetStates(|f.comps|) else old(States()),
                           old(Contents(image)), Contents(image), visits)
      // within a segment
      ensures !old(RestartDue()) ==>
                && coder == old(coder) && nextRestartNum == old(nextRestartNum)
                && restartsToGo == old(restartsToGo) - (if restartInterval > 0 then 1 else 0)
      ensures !old(RestartDue()) && old(coder.ct) != -1 ==>
                HasDecoded(routine, scan, old(coder.View()), old(States()), old(Contents(image)), Contents(image), visits)
      ensures !old(RestartDue()) && old(coder.ct) == -1 ==>
                && coder.ct == -1 && Contents(image) == old(Contents(image)) && States() == old(States())
    {
      hide Decoder.Placed, ReadScan, Contents, Separate, Sound, AllInImage, FirstMarker, Behind, SegmentEnd;
      ok := true;
      if restartInterval > 0 {
        if restartsToGo == 0 {
          ok := ProcessRestart(routine);
          if !ok {
            return;
          }
        }
        restartsToGo := restartsToGo - 1;
      }
      if coder.ct != -1 {
        DecodeBlocks(routine, scan, image, visits);
      }
    }

    /** From these registers and DC states decoding has turned one image into the other. */
    ghost predicate HasDecoded(routine: Routine, scan: Scan, r: Reader, states: seq<DcState>, before: Image, after: Image,
                            visits: seq<Visit>)
      reads this, coder
    {
      && Ok(r) && Sound(routine, scan) && |states| == |lastDcVal| == |dcContext| == |f.comps|
      && AllInImage(f, before, visits)
      && var d := ReadScan(coder.src, r, f, routine, scan, states, before, visits);
      && after == d.image && States() == d.states
      && if d.done then Ok(coder.View()) && coder.View() == d.r else coder.ct == -1
    }

    /** The blocks of an MCU, in the order they are visited. */
    method DecodeBlocks(routine: Routine, scan: Scan, image: Storage, visits: seq<Visit>)
      requires Valid() && Sound(routine, scan) && Separate(image)
      requires AllInImage(f, Contents(image), visits)
      modifies `lastDcVal, `dcContext, coder, Arrays(image)
      ensures old(coder.Placed()) ==> coder.Placed()
      ensures |lastDcVal| == |dcContext| == |f.comps|
      ensures var d := ReadScan(coder.src, old(coder.View()), f, routine, scan, old(States()), old(Contents(image)), visits);
              && Contents(image) == d.image && States() == d.states
              && if d.done then Valid() && coder.View() == d.r else coder.ct == -1
    {
      hide Decoder.Placed, Decoded, ReadBlock, Put, Contents, Separate, Sound, AllInImage;
      ghost var result := ReadScan(coder.src, coder.View(), f, routine, scan, States(), Contents(image), visits);
      assert visits[0..] == visits;
      for n := 0 to |visits|
        invariant (old(coder.Placed()) ==> coder.Placed())
        invariant Valid() && AllInImage(f, Contents(image), visits[n..])
        invariant result == ReadScan(coder.src, coder.View(), f, routine, scan, States(), Contents(image), visits[n..])
      {
        var v := visits[n];
        assert visits[n..][0] == v && visits[n..][1..] == visits[n + 1..];
        FirstInImage(f, Contents(image), visits[n..]);
        ghost var before := Contents(image);
        DecodeVisit(routine, scan, image, v);
        LaterInImage(f, before, Contents(image), visits[n..]);
        if coder.ct == -1 {
          return;
        }
      }
    }

    lemma FirstInImage(f: Frame, image: Image, visits: seq<Visit>)
      requires AllInImage(f, image, visits) && visits != []
      ensures InImage(f, image, visits[0])
    {
    }
  }
}
