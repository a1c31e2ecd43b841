/** The decoding tables of jdhuff.c (Figures F.15 and F.16, and the 8-bit lookahead). */
module HuffmanDecoding {
  import opened Powers
  import opened BitStrings
  import opened HuffmanCodes

  const LOOKAHEAD := 8
  const SENTINEL := 0xF_FFFF

  /** The derived table: maxcode and valoffset for lengths 0 to 17, the lookahead entries, the symbols. */
  datatype DTable = DTable(maxcode: seq<int>, valoffset: seq<int>, lookup: seq<nat>, huffval: seq<nat>)

  ghost predicate Shaped(t: DTable) {
    |t.maxcode| == |t.valoffset| == MAX_LEN + 2 && |t.lookup| == 0x100 && t.maxcode[MAX_LEN + 1] == SENTINEL
  }

  /** A table of codes and its symbols. */
  ghost predicate CodeTable(sizes: seq<nat>, codes: seq<nat>, huffval: seq<nat>) {
    && Accepted(sizes) && |codes| == |sizes| <= |huffval|
    && (forall p :: 0 <= p < |sizes| ==> IsCode(sizes, p, codes[p]))
    && (forall p :: 0 <= p < |huffval| ==> huffval[p] < 0x100)
  }

  /** maxcode[l] is the last code of length l, valoffset[l] leads from a code to its index. */
  ghost predicate SerialOk(t: DTable, sizes: seq<nat>, codes: seq<nat>)
    requires |codes| == |sizes|
  {
    && Shaped(t)
    && (forall p :: 0 <= p < |sizes| && 1 <= sizes[p] <= MAX_LEN ==>
          && codes[p] <= t.maxcode[sizes[p]]
          && codes[p] + t.valoffset[sizes[p]] == p)
    && (forall l :: 1 <= l <= MAX_LEN ==>
          t.maxcode[l] == -1 || exists p :: 0 <= p < |sizes| && sizes[p] == l && t.maxcode[l] == codes[p])
  }

  /** Entry `look` holds length and symbol of the short code it begins with, or says "too long". */
  ghost predicate LookupOk(t: DTable, sizes: seq<nat>, codes: seq<nat>)
    requires |codes| == |sizes| <= |t.huffval|
  {
    && Shaped(t)
    && (forall p, look :: 0 <= p < |sizes| && 0 <= look < 0x100 && Begins(sizes, codes, p, look) ==>
          t.lookup[look] == sizes[p] * 0x100 + t.huffval[p])
    && (forall look :: 0 <= look < 0x100 && (forall p :: 0 <= p < |sizes| ==> !Begins(sizes, codes, p, look)) ==>
          t.lookup[look] == (LOOKAHEAD + 1) * 0x100)
  }

  /** Code p is at most 8 bits long and `look` begins with it. */
  ghost predicate Begins(sizes: seq<nat>, codes: seq<nat>, p: nat, look: nat)
    requires |codes| == |sizes| && p < |sizes|
  {
    && 1 <= sizes[p] <= LOOKAHEAD
    && codes[p] * Pow2(LOOKAHEAD - sizes[p]) <= look < (codes[p] + 1) * Pow2(LOOKAHEAD - sizes[p])
  }

  /** A decoded symbol and the number of bits it took. */
  datatype Symbol = Symbol(value: nat, length: nat)

  /** Figure F.16 from length l on; length 17 stands for a code that does not exist. */
  function SerialDecode(t: DTable, bs: Bits, l: nat): Symbol
    requires |t.maxcode| == |t.valoffset| == MAX_LEN + 2 && t.maxcode[MAX_LEN + 1] == SENTINEL && 1 <= l <= MAX_LEN + 1
    decreases MAX_LEN + 1 - l
  {
    var code := Peek(bs, l);
    if code > t.maxcode[l] then
      if l <= MAX_LEN then SerialDecode(t, bs, l + 1) else Symbol(0, l)
    else if l > MAX_LEN then Symbol(0, l)
    else
      var i := code + t.valoffset[l];
      Symbol(if 0 <= i < |t.huffval| then t.huffval[i] else 0, l)
  }

  /** HUFF_DECODE: the lookahead table first, then bit by bit from length 9 on. */
  function LookupDecode(t: DTable, bs: Bits): Symbol
    requires |t.maxcode| == |t.valoffset| == MAX_LEN + 2 && t.maxcode[MAX_LEN + 1] == SENTINEL && |t.lookup| == 0x100
  {
    var look := Peek(bs, LOOKAHEAD);
    PeekBound(bs, LOOKAHEAD);
    LookRange();
    var nb := t.lookup[look] / 0x100;
    if nb <= LOOKAHEAD then Symbol(t.lookup[look] % 0x100, nb) else SerialDecode(t, bs, LOOKAHEAD + 1)
  }

  lemma LookRange()
    ensures Pow2(LOOKAHEAD) == 0x100
  {
    Pow2Values();
  }

  /** The next 16 bits lie in the share of code p. */
  ghost predicate InShare(sizes: seq<nat>, p: nat, bs: Bits)
    requires Lengths(sizes) && p < |sizes|
  {
    Start(sizes, p) <= Peek(bs, MAX_LEN) < Start(sizes, p + 1)
  }

  /** Before the length of code p, everything read is greater than any code of that length. */
  lemma TooShort(sizes: seq<nat>, codes: seq<nat>, huffval: seq<nat>, t: DTable, q: nat, bs: Bits, l: nat)
    requires CodeTable(sizes, codes, huffval) && SerialOk(t, sizes, codes) && 1 <= l <= MAX_LEN
    requires q <= |sizes| && Start(sizes, q) <= Peek(bs, MAX_LEN) && (q < |sizes| ==> l < sizes[q])
    ensures Peek(bs, l) > t.maxcode[l]
  {
    hide Peek, Pow2, Start;
    if t.maxcode[l] != -1 {
      var p :| 0 <= p < |sizes| && sizes[p] == l && t.maxcode[l] == codes[p];
      assert p < q;
      AboveEarlier(sizes, codes[p], p, q, bs);
    }
  }

  /** Bits in a later share read as more than an earlier code of the same length. */
  lemma AboveEarlier(sizes: seq<nat>, code: nat, p: nat, q: nat, bs: Bits)
    requires Lengths(sizes) && p < q <= |sizes| && IsCode(sizes, p, code) && Start(sizes, q) <= Peek(bs, MAX_LEN)
    ensures Peek(bs, sizes[p]) > code
  {
    hide Peek, Pow2;
    StartMonotone(sizes, p + 1, q);
    PeekPrefix(bs, sizes[p], MAX_LEN);
    AboveCode(code, Pow2(MAX_LEN - sizes[p]), Start(sizes, p), Peek(bs, MAX_LEN), Peek(bs, sizes[p]));
  }

  lemma AboveCode(code: nat, k: nat, start: nat, w: nat, x: nat)
    requires 0 < k && code * k == start && start + k <= w < (x + 1) * k
    ensures x > code
  {
    assert (code + 1) * k == code * k + k;
    if x <= code {
      MulMonotone(x + 1, code + 1, k);
    }
  }

  /** At its own length the bits read are the code. */
  lemma ReadsCode(sizes: seq<nat>, codes: seq<nat>, huffval: seq<nat>, p: nat, bs: Bits)
    requires CodeTable(sizes, codes, huffval) && p < |sizes| && InShare(sizes, p, bs)
    ensures Peek(bs, sizes[p]) == codes[p]
  {
    PeekPrefix(bs, sizes[p], MAX_LEN);
    assert IsCode(sizes, p, codes[p]);
    SameQuotient(codes[p], Peek(bs, sizes[p]), Pow2(MAX_LEN - sizes[p]), Peek(bs, MAX_LEN));
  }

  lemma SameQuotient(x: nat, y: nat, k: nat, w: nat)
    requires 0 < k && x * k <= w < x * k + k && y * k <= w < (y + 1) * k
    ensures x == y
  {
    assert (x + 1) * k == x * k + k;
    if x < y {
      MulMonotone(x + 1, y, k);
    } else if y < x {
      MulMonotone(y + 1, x, k);
    }
  }

  /** Bit by bit, from any length that is not too long, code p is found. */
  lemma {:induction false} SerialFinds(sizes: seq<nat>, codes: seq<nat>, t: DTable, p: nat, bs: Bits, l: nat)
    requires CodeTable(sizes, codes, t.huffval) && SerialOk(t, sizes, codes)
    requires p < |sizes| && InShare(sizes, p, bs) && 1 <= l <= sizes[p]
    ensures SerialDecode(t, bs, l) == Symbol(t.huffval[p], sizes[p])
    decreases sizes[p] - l
  {
    hide Peek, Pow2, Start, InShare, IsCode;
    if l < sizes[p] {
      ShareBegins(sizes, p, bs);
      TooShort(sizes, codes, t.huffval, t, p, bs, l);
      SerialFinds(sizes, codes, t, p, bs, l + 1);
    } else {
      ReadsCode(sizes, codes, t.huffval, p, bs);
    }
  }

  lemma ShareBegins(sizes: seq<nat>, p: nat, bs: Bits)
    requires Lengths(sizes) && p < |sizes| && InShare(sizes, p, bs)
    ensures Start(sizes, p) <= Peek(bs, MAX_LEN)
  {
  }

  /** Bits that begin no code run into the sentinel. */
  lemma {:induction false} SerialMisses(sizes: seq<nat>, codes: seq<nat>, t: DTable, bs: Bits, l: nat)
    requires CodeTable(sizes, codes, t.huffval) && SerialOk(t, sizes, codes)
    requires Start(sizes, |sizes|) <= Peek(bs, MAX_LEN) && 1 <= l <= MAX_LEN + 1
    ensures SerialDecode(t, bs, l) == Symbol(0, MAX_LEN + 1)
    decreases MAX_LEN + 1 - l
  {
    if l <= MAX_LEN {
      TooShort(sizes, codes, t.huffval, t, |sizes|, bs, l);
      SerialMisses(sizes, codes, t, bs, l + 1);
    }
  }

  /** The code whose share the next bits lie in. */
  lemma {:induction false} FindShare(sizes: seq<nat>, bs: Bits, n: nat) returns (p: nat)
    requires Lengths(sizes) && n <= |sizes| && Peek(bs, MAX_LEN) < Start(sizes, n)
    ensures p < n && InShare(sizes, p, bs)
  {
    if Start(sizes, n - 1) <= Peek(bs, MAX_LEN) {
      p := n - 1;
    } else {
      p := FindShare(sizes, bs, n - 1);
    }
  }

  /** A code of at most 8 bits is begun by exactly the lookaheads in its share. */
  lemma BeginsIsShare(sizes: seq<nat>, codes: seq<nat>, huffval: seq<nat>, p: nat, bs: Bits)
    requires CodeTable(sizes, codes, huffval) && p < |sizes|
    ensures Begins(sizes, codes, p, Peek(bs, LOOKAHEAD)) <==> sizes[p] <= LOOKAHEAD && InShare(sizes, p, bs)
  {
    if sizes[p] <= LOOKAHEAD {
      var m, k := LOOKAHEAD - sizes[p], MAX_LEN - LOOKAHEAD;
      assert IsCode(sizes, p, codes[p]);
      Pow2Add(m, k);
      PeekPrefix(bs, LOOKAHEAD, MAX_LEN);
      ScaleBounds(codes[p], Pow2(m), Pow2(k), Peek(bs, LOOKAHEAD), Peek(bs, MAX_LEN));
      DoubleProduct(codes[p], Pow2(m) * Pow2(k));
    }
  }

  lemma ScaleBounds(c: nat, m: nat, k: nat, look: nat, w: nat)
    requires 0 < k && look * k <= w < (look + 1) * k
    ensures c * m <= look <==> c * (m * k) <= w
    ensures look < (c + 1) * m <==> w < (c + 1) * (m * k)
  {
    ScaleBound(c * m, k, look, w);
    ScaleBound((c + 1) * m, k, look, w);
    assert c * m * k == c * (m * k) && (c + 1) * m * k == (c + 1) * (m * k);
  }

  lemma ScaleBound(x: nat, k: nat, look: nat, w: nat)
    requires 0 < k && look * k <= w < (look + 1) * k
    ensures x <= look <==> x * k <= w
  {
    if x <= look {
      MulMonotone(x, look, k);
    } else {
      MulMonotone(look + 1, x, k);
    }
  }

  /** The lookahead path, the path from 9 bits on and the walk from 1 bit agree on every bit string. */
  lemma PathsAgree(sizes: seq<nat>, codes: seq<nat>, t: DTable, bs: Bits)
    requires CodeTable(sizes, codes, t.huffval) && SerialOk(t, sizes, codes) && LookupOk(t, sizes, codes)
    ensures LookupDecode(t, bs) == SerialDecode(t, bs, 1)
  {
    hide Start, Peek, Pow2, Begins, InShare, IsCode, SerialDecode;
    var look := Peek(bs, LOOKAHEAD);
    PeekBound(bs, LOOKAHEAD);
    LookRange();
    forall p | 0 <= p < |sizes|
      ensures Begins(sizes, codes, p, look) <==> sizes[p] <= LOOKAHEAD && InShare(sizes, p, bs)
    {
      BeginsIsShare(sizes, codes, t.huffval, p, bs);
    }
    if Peek(bs, MAX_LEN) < Start(sizes, |sizes|) {
      var p := FindShare(sizes, bs, |sizes|);
      SerialFinds(sizes, codes, t, p, bs, 1);
      if sizes[p] > LOOKAHEAD {
        OnlyShare(sizes, p, bs);
        SerialFinds(sizes, codes, t, p, bs, LOOKAHEAD + 1);
      }
    } else {
      NoShare(sizes, bs);
      SerialMisses(sizes, codes, t, bs, 1);
      SerialMisses(sizes, codes, t, bs, LOOKAHEAD + 1);
    }
  }

  /** Shares do not overlap: the code is prefix-free. */
  lemma OnlyShare(sizes: seq<nat>, p: nat, bs: Bits)
    requires Lengths(sizes) && p < |sizes| && InShare(sizes, p, bs)
    ensures forall q :: 0 <= q < |sizes| && q != p ==> !InShare(sizes, q, bs)
  {
    forall q | 0 <= q < |sizes| && q != p
      ensures !InShare(sizes, q, bs)
    {
      if q < p {
        StartMonotone(sizes, q + 1, p);
      } else {
        StartMonotone(sizes, p + 1, q);
      }
    }
  }

  lemma NoShare(sizes: seq<nat>, bs: Bits)
    requires Lengths(sizes) && Start(sizes, |sizes|) <= Peek(bs, MAX_LEN)
    ensures forall q :: 0 <= q < |sizes| ==> !InShare(sizes, q, bs)
  {
    forall q | 0 <= q < |sizes|
      ensures !InShare(sizes, q, bs)
    {
      StartMonotone(sizes, q + 1, |sizes|);
    }
  }
}
