/** A scan through the Huffman coder and back: encoder, stuffed bytes, both decoding paths. */
module HuffmanTransfer {
  import opened BitStrings
  import opened ByteStrings
  import opened DataSource
  import opened MarkedBytes
  import opened BitWriting
  import opened BitReading
  import opened HuffmanBlocks
  import opened HuffmanScans
  import opened RestartIntervals
  import opened RestartMarkers
  import opened HuffmanRestarts
  import HuffmanSymbols
  import Enc = HuffmanEncoder
  import Dec = HuffmanDecoder
  import Fast = HuffmanFast

  /** The output pass over all MCUs of a scan. */
  method EncodeScan(c: Tables, comps: seq<Component>, interval: nat, mcus: seq<Mcu>)
    returns (ok: bool, out: seq<Byte>, ghost raws: seq<seq<Byte>>)
    requires Enc.TablesOk(c) && Enc.ComponentsOk(c, comps) && InScan(comps, ZeroPredictors(|comps|), Flat(mcus))
    ensures ok <==> RestartCodable(comps, interval, mcus)
    ensures ok ==> AllBytes(c, comps, Cut(interval, mcus), raws) && out == Output(raws)
  {
    hide Enc.TablesOk, Enc.ComponentsOk, RestartCodable, ScanCodable, LastAfter, BitWriter.Valid, Enc.Written, AllBytes,
         InScan, Sections, Output, Cut, Flat, Enc.HuffmanEncoder.Valid, Enc.HuffmanEncoder.Predictors;
    var e := new Enc.HuffmanEncoder(c, comps, interval);
    out, raws := [], [];
    for n := 0 to |mcus|
      invariant e.Valid() && fresh(e) && fresh(e.writer) && e.tables == c && e.comps == comps
      invariant e.restartInterval == interval && e.mcus == mcus[..n]
    {
      assert mcus[..n + 1] == mcus[..n] + [mcus[n]];
      PrefixCodable(comps, interval, mcus, n + 1);
      EncodesNext(e, mcus[n]);
      ok := e.EncodeMcu(mcus[n]);
      if !ok {
        return;
      }
    }
    assert mcus[..|mcus|] == mcus;
    EncodedIsCodable(e);
    raws := e.FinishPass();
    ok, out := true, e.writer.out;
  }

  /** What has been encoded was in range. */
  lemma EncodedSoFar(e: Enc.HuffmanEncoder)
    requires e.Valid()
    ensures InScan(e.comps, ZeroPredictors(|e.comps|), Flat(e.Current()))
    ensures Cut(e.restartInterval, e.mcus) == e.done + [e.Current()]
    ensures |e.lastDcVal| == |e.comps|
    ensures e.Predictors() == NextPredictors(e.comps, e.restartInterval, e.Current())
    ensures AllInScan(e.comps, Cut(e.restartInterval, e.mcus)) && SegmentsCodable(e.comps, Cut(e.restartInterval, e.mcus))
  {
    hide InScan, ScanCodable, AllWritable, BitWriter.Valid, Enc.TablesOk, Enc.ComponentsOk, Sections, Flat, Cut;
    LastCodable(e.comps, e.done, e.Current());
    BytesCodable(e.tables, e.comps, e.done, e.raws);
  }

  lemma EncodedIsCodable(e: Enc.HuffmanEncoder)
    requires e.Valid() && InScan(e.comps, ZeroPredictors(|e.comps|), Flat(e.mcus))
    ensures RestartCodable(e.comps, e.restartInterval, e.mcus)
  {
    hide Enc.HuffmanEncoder.Valid, Cut, SegmentsCodable;
    EncodedSoFar(e);
  }

  lemma BytesCodable(c: Tables, comps: seq<Component>, segs: seq<seq<Mcu>>, raws: seq<seq<Byte>>)
    requires AllBytes(c, comps, segs, raws)
    ensures AllInScan(comps, segs) && SegmentsCodable(comps, segs)
  {
    hide InScan, ScanCodable;
    assert forall k :: 0 <= k < |segs| ==> SegmentBytes(c, comps, segs[k], raws[k]);
  }

  /** The next MCU can be encoded if and only if the scan up to it is codable. */
  lemma EncodesNext(e: Enc.HuffmanEncoder, m: Mcu)
    requires e.Valid() && InScan(e.comps, ZeroPredictors(|e.comps|), Flat(e.mcus + [m]))
    ensures InScan(e.comps, e.lastDcVal, m) && InScan(e.comps, e.Predictors(), m)
    ensures ScanCodable(e.comps, e.Predictors(), m) <==> RestartCodable(e.comps, e.restartInterval, e.mcus + [m])
  {
    hide ScanCodable, Flat, Cut, AllInScan, SegmentsCodable, Enc.HuffmanEncoder.Valid, Enc.HuffmanEncoder.Predictors;
    EncodedSoFar(e);
    CodableSnoc(e.comps, e.restartInterval, e.mcus, m, e.done, e.Current());
  }

  /** One MCU is read from in front of the others. */
  lemma McuIsRead(c: Tables, d: DTables, comps: seq<Component>, last: seq<int>, m: Mcu, rest: seq<Item>, tail: Bits)
    requires Fitting(c, d) && UsesTables(comps, d) && AllShaped(d) && InScan(comps, last, m + rest)
    requires ScanCodable(comps, last, m + rest) && Covered(c, ScanTokens(comps, last, m + rest))
    ensures InScan(comps, last, m) && InScan(comps, LastAfter(last, m), rest)
    ensures ScanCodable(comps, LastAfter(last, m), rest) && Covered(c, ScanTokens(comps, LastAfter(last, m), rest))
    ensures ReadItems(d, comps, last, BitsBefore(c, ScanTokens(comps, last, m + rest), tail), Members(m))
         == (m, LastAfter(last, m), BitsBefore(c, ScanTokens(comps, LastAfter(last, m), rest), tail))
  {
    hide ScanTokens, ScanCodable, BitsBefore, Covered, LastAfter, ReadItems, Members;
    PartsInScan(comps, last, m, rest);
    ScanConcat(comps, last, m, rest);
    var ts, us := ScanTokens(comps, last, m), ScanTokens(comps, LastAfter(last, m), rest);
    BitsBeforeConcat(c, ts, us, tail);
    CoveredIsWritable(c, us);
    ItemsAreRead(c, d, comps, last, m, BitsBefore(c, us, tail));
  }

  /** There is something to read as long as there are blocks. */
  lemma SomeBits(c: Tables, comps: seq<Component>, last: seq<int>, items: seq<Item>, tail: Bits)
    requires InScan(comps, last, items) && items != [] && Covered(c, ScanTokens(comps, last, items))
    ensures BitsBefore(c, ScanTokens(comps, last, items), tail) != []
  {
    hide AcTokens, HasCode, BitsBefore;
    var ts := ScanTokens(comps, last, items);
    assert ts[0] == DcToken(comps[items[0].ci].dcTbl, items[0].z[0] - last[items[0].ci]);
    FirstBit(c, ts, tail);
  }

  lemma FirstBit(c: Tables, ts: seq<Token>, tail: Bits)
    requires Covered(c, ts) && ts != []
    ensures BitsBefore(c, ts, tail) != []
  {
    assert HasCode(c, ts[0]);
  }

  /** Cleared storage for the blocks of an MCU. */
  method FreshBlocks(n: nat) returns (blocks: seq<array<int>>)
    ensures |blocks| == n && Dec.Storage(blocks)
    ensures forall i :: 0 <= i < n ==> fresh(blocks[i]) && blocks[i][..] == Cleared()
  {
    blocks := [];
    for i := 0 to n
      invariant |blocks| == i && Dec.Storage(blocks)
      invariant forall j :: 0 <= j < i ==> fresh(blocks[j]) && blocks[j][..] == Cleared()
    {
      var a := new int[64](_ => 0);
      assert a[..] == Cleared();
      blocks := blocks + [a];
    }
  }

  method Collect(members: seq<nat>, blocks: seq<array<int>>) returns (m: Mcu)
    requires |blocks| == |members| && Dec.Storage(blocks)
    ensures m == Dec.ItemsIn(members, blocks)
  {
    m := [];
    for i := 0 to |members|
      invariant m == Dec.ItemsIn(members, blocks)[..i]
    {
      m := m + [Item(members[i], blocks[i][..])];
    }
  }

  /** The bits of some blocks lie ahead, with any padding behind them. */
  ghost predicate Ahead(c: Tables, comps: seq<Component>, last: seq<int>, items: seq<Item>, bs: Bits) {
    && InScan(comps, last, items) && ScanCodable(comps, last, items) && Covered(c, ScanTokens(comps, last, items))
    && exists n: nat :: bs == BitsBefore(c, ScanTokens(comps, last, items), OneBits(n))
  }

  lemma AheadStep(c: Tables, d: DTables, comps: seq<Component>, last: seq<int>, m: Mcu, rest: seq<Item>, bs: Bits)
    requires Fitting(c, d) && UsesTables(comps, d) && AllShaped(d) && Ahead(c, comps, last, m + rest, bs)
    ensures |last| == |comps| && forall i :: 0 <= i < |m| ==> Members(m)[i] < |comps|
    ensures var s := ReadItems(d, comps, last, bs, Members(m)); s.0 == m && Ahead(c, comps, s.1, rest, s.2)
    ensures m != [] ==> bs != []
  {
    hide ScanTokens, ScanCodable, BitsBefore, Covered, LastAfter, ReadItems;
    PartsInScan(comps, last, m, rest);
    CoveredIsWritable(c, ScanTokens(comps, last, m + rest));
    var n: nat :| bs == BitsBefore(c, ScanTokens(comps, last, m + rest), OneBits(n));
    McuIsRead(c, d, comps, last, m, rest, OneBits(n));
    if m != [] {
      SomeBits(c, comps, last, m + rest, OneBits(n));
    }
  }

  /** A segment that has been written with codes for all its symbols. */
  ghost predicate Readable(c: Tables, comps: seq<Component>, seg: seq<Mcu>, raw: seq<Byte>) {
    SegmentBytes(c, comps, seg, raw) && Covered(c, ScanTokens(comps, ZeroPredictors(|comps|), Flat(seg)))
  }

  ghost predicate AllReadable(c: Tables, comps: seq<Component>, segs: seq<seq<Mcu>>, raws: seq<seq<Byte>>) {
    |raws| == |segs| && forall k :: 0 <= k < |segs| ==> Readable(c, comps, segs[k], raws[k])
  }

  /** At the beginning of a segment all its bits lie ahead. */
  lemma SegmentBegins(c: Tables, comps: seq<Component>, seg: seq<Mcu>, raw: seq<Byte>, src: seq<Byte>)
    requires Readable(c, comps, seg, raw) && Segment(src, raw)
    ensures Ahead(c, comps, ZeroPredictors(|comps|), Flat(seg), Unread(src, Input(0, 0))) && Regular(src, 0)
  {
    hide Segment, Unread, Regular, ScanTokens, ScanCodable, BitsOf, BitsBefore, ByteBits, Covered, InScan;
    WholeSegment(src, raw);
    var ts := ScanTokens(comps, ZeroPredictors(|comps|), Flat(seg));
    var padding: nat :| padding < 8 && ByteBits(raw) == BitsOf(c, ts) + OneBits(padding);
    BitsBeforeIs(c, ts, OneBits(padding));
  }

  /** The reader starts with all bits of the segment before it. */
  lemma WholeSegment(src: seq<Byte>, u: seq<Byte>)
    requires Segment(src, u)
    ensures Unread(src, Input(0, 0)) == ByteBits(u) && Regular(src, 0)
  {
    assert u[..0] == [] && u[0..] == u && Stuff([]) == [];
    UnreadSegment(src, u, Input(0, 0), 0);
    SegmentIsRegular(src, u, 0);
  }

  /** The source holds what remains of the output, and the bits of the segment lie ahead. */
  ghost predicate Standing(c: Tables, comps: seq<Component>, raws: seq<seq<Byte>>, tail: seq<Byte>, p: Position<Mcu>,
                           src: seq<Byte>, last: seq<int>, bs: Bits) {
    && p.k < |raws| && src == OutputFrom(raws, p.k) + tail
    && Ahead(c, comps, last, Flat(p.rest), bs)
  }

  /** At the beginning of segment k. */
  lemma StandsAt(c: Tables, comps: seq<Component>, segs: seq<seq<Mcu>>, raws: seq<seq<Byte>>, tail: seq<Byte>, k: nat,
                 src: seq<Byte>)
    requires k < |segs| && AllReadable(c, comps, segs, raws) && src == OutputFrom(raws, k) + tail && MarkerTail(tail)
    ensures Standing(c, comps, raws, tail, InSegment(k, segs[k]), src, ZeroPredictors(|comps|), Unread(src, Input(0, 0)))
    ensures Regular(src, 0)
    ensures k + 1 < |segs| ==>
              FirstMarker(src).marker as int == RST0 + k % 8 && Behind(src) == OutputFrom(raws, k + 1) + tail
  {
    hide Readable, MarkerTail, OutputFrom, Stuff, Unread, Ahead, Flat, Segment, Regular, FirstMarker;
    SegmentInOutput(raws, tail, k, src);
    SegmentBegins(c, comps, segs[k], raws[k], src);
  }

  /** At the end of a segment the next one follows behind the marker that is expected. */
  lemma StepOver(c: Tables, comps: seq<Component>, interval: nat, mcus: seq<Mcu>, raws: seq<seq<Byte>>,
                 tail: seq<Byte>, n: nat, p: Position<Mcu>, src: seq<Byte>, last: seq<int>, bs: Bits, toGo: nat, num: nat)
    requires n < |mcus| && MarkerTail(tail) && AllReadable(c, comps, Cut(interval, mcus), raws) && p.rest == []
    requires Located(interval, Cut(interval, mcus), mcus[n..], p, toGo, num)
    requires Standing(c, comps, raws, tail, p, src, last, bs)
    ensures var segs, rest := Cut(interval, mcus), Behind(src);
            && interval > 0 && toGo == 0 && FirstMarker(src).marker as int == RST0 + num
            && p.k + 1 < |segs| && segs[p.k + 1] != []
            && Located(interval, segs, mcus[n..], InSegment(p.k + 1, segs[p.k + 1]), interval, (num + 1) % 8)
            && Standing(c, comps, raws, tail, InSegment(p.k + 1, segs[p.k + 1]), rest, ZeroPredictors(|comps|),
                        Unread(rest, Input(0, 0)))
  {
    hide MarkerTail, OutputFrom, Unread, Ahead, Flat, Cut, FirstMarker, Behind, AllReadable;
    var segs := Cut(interval, mcus);
    McuBehind(interval, mcus, n, p, toGo, num);
    StandsAt(c, comps, segs, raws, tail, p.k, src);
    StandsAt(c, comps, segs, raws, tail, p.k + 1, Behind(src));
  }

  /** From inside a segment the next MCU is read from the bits that follow. */
  lemma StepInside(c: Tables, d: DTables, comps: seq<Component>, segs: seq<seq<Mcu>>, raws: seq<seq<Byte>>,
                   tail: seq<Byte>, m: Mcu, p: Position<Mcu>, src: seq<Byte>, last: seq<int>, bs: Bits)
    requires Fitting(c, d) && UsesTables(comps, d) && AllShaped(d) && AllReadable(c, comps, segs, raws) && MarkerTail(tail)
    requires Standing(c, comps, raws, tail, p, src, last, bs) && p.k < |segs| && p.rest != [] && p.rest[0] == m != []
    ensures bs != [] && Regular(src, 0)
    ensures |last| == |comps| && forall i :: 0 <= i < |m| ==> Members(m)[i] < |comps|
    ensures var s := ReadItems(d, comps, last, bs, Members(m));
            s.0 == m && Standing(c, comps, raws, tail, InSegment(p.k, p.rest[1..]), src, s.1, s.2)
  {
    hide Fitting, UsesTables, AllShaped, OutputFrom, Ahead, Flat, ReadItems, AllReadable, MarkerTail, Regular, Unread,
         FirstMarker, Behind;
    FlatFirst(p.rest);
    AheadStep(c, d, comps, last, m, Flat(p.rest[1..]), bs);
    StandsAt(c, comps, segs, raws, tail, p.k, src);
  }

  /** From these bits and predictors comes this MCU; then those follow. */
  ghost predicate McuFrom(d: DTables, comps: seq<Component>, last: seq<int>, bs: Bits, members: seq<nat>, m: Mcu,
                          lastAfter: seq<int>, after: Bits) {
    && |last| == |comps| && UsesTables(comps, d) && AllShaped(d)
    && (forall i :: 0 <= i < |members| ==> members[i] < |comps|)
    && ReadItems(d, comps, last, bs, members) == (m, lastAfter, after)
  }

  /** One MCU, into storage of its own. */
  method ReadMcu(dec: Dec.HuffmanDecoder, members: seq<nat>) returns (ok: bool, m: Mcu)
    requires dec.Valid() && AllShaped(dec.tables) && members != []
    requires forall i :: 0 <= i < |members| ==> members[i] < |dec.comps|
    requires if dec.RestartDue() then
               FirstMarker(dec.reader.src).marker as int == RST0 + dec.nextRestartNum
             else Regular(dec.reader.src, 0) && Drop(dec.reader.all, dec.reader.at) != []
    modifies dec, dec.reader
    ensures ok && dec.Valid() && (dec.reader == old(dec.reader) || fresh(dec.reader))
    ensures var bs := Drop(old(dec.reader.all), old(dec.reader.at));
            !old(dec.RestartDue()) ==>
              && dec.reader.src == old(dec.reader.src) && dec.nextRestartNum == old(dec.nextRestartNum)
              && dec.restartsToGo == old(dec.restartsToGo) - (if dec.restartInterval > 0 then 1 else 0)
              && McuFrom(dec.tables, dec.comps, old(dec.lastDcVal), bs, members, m, dec.lastDcVal,
                         Drop(dec.reader.all, dec.reader.at))
    ensures var rest := Behind(old(dec.reader.src));
            old(dec.RestartDue()) ==>
              && dec.reader.src == rest && dec.nextRestartNum == (old(dec.nextRestartNum) + 1) % 8
              && dec.restartsToGo == dec.restartInterval - 1
              && McuFrom(dec.tables, dec.comps, ZeroPredictors(|dec.comps|), Unread(rest, Input(0, 0)), members, m,
                         dec.lastDcVal, Drop(dec.reader.all, dec.reader.at))
  {
    hide Dec.AllDerived, UsesTables, AllShaped, BitReader.Valid, BitReader.Sound, Drop, ReadItems, Regular, Cleared,
         Unread, FirstMarker;
    var blocks := FreshBlocks(|members|);
    if !dec.RestartDue() {
      StillSufficient(dec.reader);
    }
    ghost var givenUp;
    ok, givenUp := Fast.DecodeMcu(dec, members, blocks);
    m := Collect(members, blocks);
  }

  /** Decodes the output of the encoder, whatever marker or nothing follows it: each MCU comes back. */
  method DecodeScan(d: DTables, comps: seq<Component>, interval: nat, src: seq<Byte>, members: seq<seq<nat>>,
                    ghost c: Tables, ghost mcus: seq<Mcu>, ghost raws: seq<seq<Byte>>, ghost tail: seq<Byte>)
    returns (ok: bool, decoded: seq<Mcu>)
    requires Fitting(c, d) && Dec.AllDerived(d) && UsesTables(comps, d) && AllShaped(d)
    requires |members| == |mcus|
    requires forall n :: 0 <= n < |mcus| ==> mcus[n] != [] && members[n] == Members(mcus[n])
    requires AllReadable(c, comps, Cut(interval, mcus), raws) && src == Output(raws) + tail && MarkerTail(tail)
    ensures ok && decoded == mcus
  {
    hide Dec.AllDerived, UsesTables, AllShaped, Fitting, BitReader.Valid, BitReader.Sound, Drop, ReadItems, Regular,
         Cleared, AllReadable, MarkerTail, Output, OutputFrom, Cut, Unread, FirstMarker, Behind, Standing, Located;
    ghost var segs := Cut(interval, mcus);
    ghost var p := InSegment(0, segs[0]);
    AtFirstMcu(interval, mcus);
    AsManySegments(c, comps, segs, raws);
    WholeOutput(raws);
    StandsAt(c, comps, segs, raws, tail, 0, src);
    var dec := new Dec.HuffmanDecoder(d, comps, interval, src);
    EverythingAhead(dec.reader.all);
    decoded := [];
    for n := 0 to |members|
      invariant dec.Valid() && fresh(dec) && fresh(dec.reader) && dec.tables == d && dec.comps == comps
      invariant dec.restartInterval == interval && decoded == mcus[..n]
      invariant Located(interval, segs, mcus[n..], p, dec.restartsToGo, dec.nextRestartNum) && p.k < |segs|
      invariant Standing(c, comps, raws, tail, p, dec.reader.src, dec.lastDcVal, Drop(dec.reader.all, dec.reader.at))
    {
      ghost var from, last, bs := dec.reader.src, dec.lastDcVal, Drop(dec.reader.all, dec.reader.at);
      ghost var toGo, num := dec.restartsToGo, dec.nextRestartNum;
      if p.rest == [] {
        StepOver(c, comps, interval, mcus, raws, tail, n, p, from, last, bs, toGo, num);
        p, from := InSegment(p.k + 1, segs[p.k + 1]), Behind(from);
        last, bs, toGo, num := ZeroPredictors(|comps|), Unread(from, Input(0, 0)), interval, (num + 1) % 8;
      }
      McuInside(interval, mcus, n, p, toGo, num);
      StepInside(c, d, comps, segs, raws, tail, mcus[n], p, from, last, bs);
      p := InSegment(p.k, p.rest[1..]);
      var m;
      ok, m := ReadMcu(dec, members[n]);
      if !ok {
        return;
      }
      decoded := decoded + [m];
    }
    ok := true;
  }

  lemma AsManySegments(c: Tables, comps: seq<Component>, segs: seq<seq<Mcu>>, raws: seq<seq<Byte>>)
    requires AllReadable(c, comps, segs, raws)
    ensures |raws| == |segs|
  {
  }

  lemma EverythingAhead(bs: Bits)
    ensures Drop(bs, 0) == bs
  {
  }

  lemma StillSufficient(r: BitReader)
    requires r.Sound() && Drop(r.all, r.at) != []
    ensures !r.insufficient
  {
  }

  /** Every symbol that is emitted has a code. */
  ghost predicate CodesFor(c: Tables, ts: seq<Token>) {
    forall i :: 0 <= i < |ts| ==>
      && HasTable(c, ts[i]) && ts[i].symbol < |TableOf(c, ts[i]).ehufsi|
      && TableOf(c, ts[i]).ehufsi[ts[i].symbol] > 0
  }

  lemma CodesCover(c: Tables, ts: seq<Token>)
    requires CodesFor(c, ts) && AllWritable(c, ts)
    ensures Covered(c, ts)
  {
    forall i | 0 <= i < |ts|
      ensures HasCode(c, ts[i])
    {
      assert Writable(c, ts[i]);
    }
  }

  lemma FittingIsOk(c: Tables, d: DTables, comps: seq<Component>)
    requires Fitting(c, d) && UsesTables(comps, d)
    ensures Enc.TablesOk(c) && Enc.ComponentsOk(c, comps) && AllShaped(d)
  {
    hide HuffmanSymbols.Paired, Enc.TableOk;
    FittingShapes(c, d);
    forall t | 0 <= t < |c.dc|
      ensures Enc.TableOk(c.dc[t])
    {
      Enc.PairedIsOk(c.dc[t], d.dc[t]);
    }
    forall t | 0 <= t < |c.ac|
      ensures Enc.TableOk(c.ac[t])
    {
      Enc.PairedIsOk(c.ac[t], d.ac[t]);
    }
  }

  /** Segments that were written with codes for all their symbols can be read. */
  lemma {:induction false} BytesReadable(c: Tables, comps: seq<Component>, segs: seq<seq<Mcu>>, raws: seq<seq<Byte>>)
    requires AllBytes(c, comps, segs, raws) && AllInScan(comps, segs) && CodesFor(c, SegmentTokens(comps, segs))
    ensures AllReadable(c, comps, segs, raws)
  {
    hide ScanTokens, CodesFor, SegmentBytes, Covered, InScan, AllWritable;
    if segs != [] {
      var n := |segs| - 1;
      var ts := ScanTokens(comps, ZeroPredictors(|comps|), Flat(segs[n]));
      CodesParts(c, SegmentTokens(comps, segs[..n]), ts);
      BytesReadable(c, comps, segs[..n], raws[..n]);
      SegmentWritable(c, comps, segs[n], raws[n]);
      CodesCover(c, ts);
    }
  }

  lemma SegmentWritable(c: Tables, comps: seq<Component>, seg: seq<Mcu>, raw: seq<Byte>)
    requires SegmentBytes(c, comps, seg, raw)
    ensures InScan(comps, ZeroPredictors(|comps|), Flat(seg))
    ensures AllWritable(c, ScanTokens(comps, ZeroPredictors(|comps|), Flat(seg)))
  {
  }

  lemma CodesParts(c: Tables, ts: seq<Token>, us: seq<Token>)
    requires CodesFor(c, ts + us)
    ensures CodesFor(c, ts) && CodesFor(c, us)
  {
    var all := ts + us;
    assert forall i :: 0 <= i < |ts| ==> ts[i] == all[i];
    assert forall i :: 0 <= i < |us| ==> us[i] == all[|ts| + i];
  }

  /**
   Sends a scan, in segments of any restart interval, with tables that have a code for every symbol used:
   it is refused if and only if some value is out of range, and otherwise every coefficient comes back.
   */
  method TransferScan(c: Tables, d: DTables, comps: seq<Component>, interval: nat, mcus: seq<Mcu>,
                      members: seq<seq<nat>>, tail: seq<Byte>)
    returns (ok: bool, decoded: seq<Mcu>)
    requires Fitting(c, d) && Dec.AllDerived(d) && UsesTables(comps, d) && MarkerTail(tail) && |members| == |mcus|
    requires forall n :: 0 <= n < |mcus| ==> mcus[n] != [] && members[n] == Members(mcus[n])
    requires InScan(comps, ZeroPredictors(|comps|), Flat(mcus))
    requires RestartCodable(comps, interval, mcus) ==> CodesFor(c, RestartTokens(comps, interval, mcus))
    ensures ok <==> RestartCodable(comps, interval, mcus)
    ensures ok ==> decoded == mcus
  {
    hide Fitting, Dec.AllDerived, UsesTables, AllShaped, Enc.TablesOk, Enc.ComponentsOk, InScan, SegmentsCodable,
         CodesFor, Cut, AllBytes, AllReadable, SegmentTokens, Output, MarkerTail, AllInScan, Flat;
    FittingIsOk(c, d, comps);
    CutInScan(comps, interval, mcus);
    var out;
    ghost var raws;
    ok, out, raws := EncodeScan(c, comps, interval, mcus);
    decoded := [];
    if ok {
      BytesReadable(c, comps, Cut(interval, mcus), raws);
      ok, decoded := DecodeScan(d, comps, interval, out + tail, members, c, mcus, raws, tail);
    }
  }
}
