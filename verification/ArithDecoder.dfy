/** The arithmetic entropy decoder of jdarith.c. */
module ArithDecoder {
  import opened Powers
  import opened ByteStrings
  import opened DataSource
  import opened RestartMarkers
  import opened ProbabilityTable
  import opened IntervalCoding

  /** The decoder's registers; c holds the code relative to the interval, `ct` bits finer than a. */
  datatype Registers = Registers(c: int, a: nat, ct: int, input: Input, stats: Statistics)

  const RESET := Registers(0, 0, -16, Input(0, 0), map[])

  predicate Ok(r: Registers) {
    if r.a == 0 then r.ct == -16 || r.ct == -8 else 0 <= r.ct < 8
  }

  /** One turn of the renormalization loop, fetching a byte when no bits are left. */
  function Shifted(src: seq<Byte>, r: Registers): (s: Registers)
    requires Ok(r)
    ensures Ok(s) && s.stats == r.stats
    ensures if r.a == 0 && r.ct == -16 then s.a == 0 && s.ct == -8
            else if r.a == 0 then s.a == 0x1_0000
            else s.a == 2 * r.a
  {
    if r.ct - 1 >= 0 then r.(ct := r.ct - 1, a := 2 * r.a)
    else
      var (data, next) := NextData(src, r.input);
      var c, ct := r.c * 0x100 + data as int, r.ct - 1 + 8;
      if ct >= 0 then r.(c := c, ct := ct, a := 2 * r.a, input := next)
      else if ct + 1 == 0 then r.(c := c, ct := 0, a := 0x1_0000, input := next)
      else r.(c := c, ct := ct + 1, a := 2 * r.a, input := next)
  }

  function Filled(src: seq<Byte>, r: Registers): (s: Registers)
    requires Ok(r)
    ensures Ok(s) && s.a >= 0x8000 && s.stats == r.stats
    decreases r.a == 0, if r.a == 0 then -r.ct else 0x8000 - r.a
  {
    if r.a >= 0x8000 then r else Filled(src, Shifted(src, r))
  }

  /** Compares the code with the lower part and takes the part it lies in. */
  function Narrowed(r: Registers, bin: Bin): (d: (bool, Registers))
    requires Ok(r) && r.a >= 0x8000
    ensures Ok(d.1)
  {
    var sv := Stat(r.stats, bin);
    var qe := EstimateOf(sv).qe;
    var rest := r.a - qe;
    if r.c >= rest * Pow2(r.ct) then
      var upper := r.(c := r.c - rest * Pow2(r.ct), a := qe);
      if rest < qe then (Mps(sv), upper.(stats := r.stats[bin := AfterMps(sv)]))
      else (!Mps(sv), upper.(stats := r.stats[bin := AfterLps(sv)]))
    else
      var lower := r.(a := rest);
      if rest >= 0x8000 then (Mps(sv), lower)
      else if rest < qe then (!Mps(sv), lower.(stats := r.stats[bin := AfterLps(sv)]))
      else (Mps(sv), lower.(stats := r.stats[bin := AfterMps(sv)]))
  }

  /** What arith_decode returns and leaves behind, for any input whatever. */
  function Decoded(src: seq<Byte>, r: Registers, bin: Bin): (d: (bool, Registers))
    requires Ok(r)
    ensures Ok(d.1)
  {
    Narrowed(Filled(src, r), bin)
  }

  class Decoder {
    const src: seq<Byte>
    var pos: nat
    var unreadMarker: Byte
    var c: int
    var a: nat
    var ct: int
    var stats: Statistics

    ghost function View(): Registers
      reads this
    {
      Registers(c, a, ct, Input(pos, unreadMarker), stats)
    }

    /** Reading has not gone past the next marker of the source. */
    ghost predicate Placed()
      reads `pos, `unreadMarker
    {
      SegmentEnd(src, Input(pos, unreadMarker)) == FirstMarker(src)
    }

    constructor (source: seq<Byte>)
      ensures src == source && View() == RESET && Placed()
    {
      src := source;
      pos, unreadMarker, c, a, ct, stats := 0, 0, 0, 0, -16, map[];
    }

    method GetByte() returns (b: Byte)
      modifies this`pos
      ensures b == SourceByte(src, old(pos)) && pos == old(pos) + 1
    {
      b := if pos < |src| then src[pos] else if (pos - |src|) % 2 == 0 then 0xFF else EOI;
      pos := pos + 1;
    }

    method FetchData() returns (data: Byte)
      modifies this`pos, this`unreadMarker
      ensures (data, Input(pos, unreadMarker)) == NextData(src, old(Input(pos, unreadMarker)))
      ensures old(Placed()) ==> Placed()
    {
      hide SegmentEnd;
      EndIsNext(src, Input(pos, unreadMarker));
      if unreadMarker != 0 {
        return 0;
      }
      data := GetByte();
      if data == 0xFF {
        data, pos := SwallowFill(src, pos);
        if data == 0 {
          data := 0xFF;
        } else {
          unreadMarker := data;
          data := 0;
        }
      }
    }

    /** Renormalization and data input. */
    method Fill()
      requires Ok(View())
      modifies this`c, this`a, this`ct, this`pos, this`unreadMarker
      ensures View() == Filled(src, old(View())) && (old(Placed()) ==> Placed())
    {
      hide SegmentEnd, Placed;
      while a < 0x8000
        invariant Ok(View()) && (old(Placed()) ==> Placed())
        invariant Filled(src, View()) == Filled(src, old(View()))
        decreases a == 0, if a == 0 then -ct else 0x8000 - a
      {
        hide NextData;
        ghost var before := View();
        ct := ct - 1;
        if ct < 0 {
          var data := FetchData();
          c := c * 0x100 + data as int;
          ct := ct + 8;
          if ct < 0 {
            ct := ct + 1;
            if ct == 0 {
              a := 0x8000;
            }
          }
        }
        a := 2 * a;
        assert View() == Shifted(src, before);
      }
    }

    /** Decodes one decision (arith_decode). */
    method Decode(bin: Bin) returns (bit: bool)
      requires Ok(View())
      modifies this
      ensures (bit, View()) == Decoded(src, old(View()), bin) && (old(Placed()) ==> Placed())
    {
      hide Filled, EstimateOf, Mps, AfterLps, AfterMps, Stat, Placed;
      Fill();
      var sv := Stat(stats, bin);
      var qe := EstimateOf(sv).qe;
      var temp := a - qe;
      a := temp;
      temp := temp * Pow2(ct);
      bit := Mps(sv);
      if c >= temp {
        c := c - temp;
        if a < qe {
          a := qe;
          stats := stats[bin := AfterMps(sv)];
        } else {
          a := qe;
          stats := stats[bin := AfterLps(sv)];
          bit := !bit;
        }
      } else if a < 0x8000 {
        if a < qe {
          stats := stats[bin := AfterLps(sv)];
          bit := !bit;
        } else {
          stats := stats[bin := AfterMps(sv)];
        }
      }
    }
  }
}
