/** Big-endian values of byte strings and the 0xFF byte stuffing of entropy-coded segments. */
module ByteStrings {
  import opened Powers

  newtype Byte = x: int | 0 <= x < 256

  /** The number a byte string denotes, most significant byte first. */
  ghost function Value(s: seq<Byte>): nat
  {
    if s == [] then 0 else Value(s[..|s| - 1]) * 256 + s[|s| - 1] as int
  }

  function Repeat(b: Byte, n: nat): (s: seq<Byte>)
    ensures |s| == n
  {
    if n == 0 then [] else Repeat(b, n - 1) + [b]
  }

  lemma RepeatSnoc(b: Byte, n: nat)
    ensures Repeat(b, 0) == []
    ensures Repeat(b, n + 1) == Repeat(b, n) + [b]
  {
  }

  /** Byte i of `u` followed by endless zero bytes. */
  function ByteAt(u: seq<Byte>, i: nat): Byte
  {
    if i < |u| then u[i] else 0
  }

  /** The value of the first `k` bytes of `u` followed by endless zero bytes. */
  ghost function CodeAt(u: seq<Byte>, k: nat): nat
  {
    if k == 0 then 0 else CodeAt(u, k - 1) * 256 + ByteAt(u, k - 1) as int
  }

  /** A zero byte follows each 0xFF so that no marker code appears inside the segment. */
  ghost function Stuff(u: seq<Byte>): seq<Byte>
  {
    if u == [] then []
    else
      var b := u[|u| - 1];
      Stuff(u[..|u| - 1]) + if b == 0xFF then [0xFF, 0] else [b]
  }

  lemma ValueSnoc(s: seq<Byte>, b: Byte)
    ensures Value(s + [b]) == Value(s) * 256 + b as int
  {
    assert (s + [b])[..|s|] == s;
  }

  lemma StuffSnoc(s: seq<Byte>, b: Byte)
    ensures Stuff(s + [b]) == Stuff(s) + if b == 0xFF then [0xFF, 0] else [b]
  {
    assert (s + [b])[..|s|] == s;
  }

  /** A carry travels through a run of 0xFF bytes and leaves zero bytes behind. */
  lemma {:induction false} CarryThroughOnes(x: seq<Byte>, y: seq<Byte>, n: nat)
    requires Value(x) == Value(y) + 1
    ensures Value(x + Repeat(0, n)) == Value(y + Repeat(0xFF, n)) + 1
  {
    if n == 0 {
      assert x + Repeat(0, 0) == x && y + Repeat(0xFF, 0) == y;
    } else {
      CarryThroughOnes(x, y, n - 1);
      var zeros, ones := x + Repeat(0, n - 1), y + Repeat(0xFF, n - 1);
      assert x + Repeat(0, n) == zeros + [0];
      assert y + Repeat(0xFF, n) == ones + [0xFF];
      ValueSnoc(zeros, 0);
      ValueSnoc(ones, 0xFF);
    }
  }

  /** Only the prefix of length `k` matters for the first `k` bytes. */
  lemma {:induction false} CodeAtAgree(u: seq<Byte>, w: seq<Byte>, k: nat)
    requires forall i: nat :: i < k ==> ByteAt(u, i) == ByteAt(w, i)
    ensures CodeAt(u, k) == CodeAt(w, k)
  {
    if k > 0 {
      CodeAtAgree(u, w, k - 1);
    }
  }

  lemma {:induction false} CodeAtAll(u: seq<Byte>)
    ensures CodeAt(u, |u|) == Value(u)
  {
    if u != [] {
      var t := u[..|u| - 1];
      CodeAtAll(t);
      CodeAtAgree(u, t, |t|);
    }
  }

  /** Dropping final zero bytes does not change the code. */
  lemma {:induction false} CodeAtPadded(u: seq<Byte>, n: nat)
    ensures CodeAt(u, |u| + n) == Value(u + Repeat(0, n))
  {
    if n == 0 {
      CodeAtAll(u);
      assert u + Repeat(0, 0) == u;
    } else {
      CodeAtPadded(u, n - 1);
      var w := u + Repeat(0, n - 1);
      assert u + Repeat(0, n) == w + [0];
      ValueSnoc(w, 0);
    }
  }

  /** A string of 0xFF bytes is the greatest value of its length. */
  lemma {:induction false} ValueOfOnes(n: nat)
    ensures Value(Repeat(0xFF, n)) + 1 == Pow2(8 * n)
  {
    if n > 0 {
      ValueOfOnes(n - 1);
      ValueSnoc(Repeat(0xFF, n - 1), 0xFF);
      Pow2Add(8 * (n - 1), 8);
      Pow2Values();
    }
  }
}
