/** Words as the bus carries them, most significant byte first, and as the host's memory holds them. */
module ByteSwap {
  import opened Words

  /** `buildword`: four bytes, the first one on top. */
  function BuildWord(p: seq<nat>): nat
    requires |p| == 4
  {
    ((p[0] * 256 + p[1]) * 256 + p[2]) * 256 + p[3]
  }

  /** `byteswap` */
  function Swapped(v: nat): nat {
    ((v % 256 * 256 + v / 0x100 % 256) * 256 + v / 0x1_0000 % 256) * 256 + v / 0x100_0000 % 256
  }

  /** The bytes of a word in the host's memory: the least significant one comes first. */
  function HostBytes(v: nat): seq<nat> {
    [v % 256, v / 0x100 % 256, v / 0x1_0000 % 256, v / 0x100_0000 % 256]
  }

  predicate AreBytes(p: seq<nat>) {
    forall k | 0 <= k < |p| :: p[k] < 256
  }

  lemma WordParts(a: nat, b: nat, c: nat, d: nat)
    requires a < 256 && b < 256 && c < 256 && d < 256
    ensures var v := ((a * 256 + b) * 256 + c) * 256 + d;
            && v % 256 == d && v / 0x100 == (a * 256 + b) * 256 + c && v / 0x1_0000 == a * 256 + b && v / 0x100_0000 == a
            && v / 0x100 % 256 == c && v / 0x1_0000 % 256 == b && v / 0x100_0000 % 256 == a && v < TWO32
  {
    var v := ((a * 256 + b) * 256 + c) * 256 + d;
    assert v / 0x100 == (a * 256 + b) * 256 + c;
    assert v / 0x1_0000 == v / 0x100 / 0x100;
    assert v / 0x100_0000 == v / 0x1_0000 / 0x100;
  }

  /** A word read from the flash and swapped holds the flash's bytes in the flash's order. */
  lemma SwappedWordHoldsBytes(p: seq<nat>)
    requires |p| == 4 && AreBytes(p)
    ensures HostBytes(Swapped(BuildWord(p))) == p && BuildWord(p) < TWO32
  {
    WordParts(p[0], p[1], p[2], p[3]);
    WordParts(p[3], p[2], p[1], p[0]);
  }

  lemma WordIsParts(v: nat)
    ensures v == ((v / 0x100_0000 * 256 + v / 0x1_0000 % 256) * 256 + v / 0x100 % 256) * 256 + v % 256
  {
    assert v / 0x1_0000 == v / 0x100_0000 * 256 + v / 0x1_0000 % 256 by { assert v / 0x100_0000 == v / 0x1_0000 / 256; }
    assert v / 0x100 == v / 0x1_0000 * 256 + v / 0x100 % 256 by { assert v / 0x1_0000 == v / 0x100 / 256; }
  }

  lemma SwappedParts(a: nat, b: nat, c: nat, d: nat)
    requires a < 256 && b < 256 && c < 256 && d < 256
    ensures Swapped(((a * 256 + b) * 256 + c) * 256 + d) == ((d * 256 + c) * 256 + b) * 256 + a
  {
    WordParts(a, b, c, d);
  }

  /** Swapping twice changes nothing. */
  lemma SwapTwice(v: nat)
    requires v < TWO32
    ensures Swapped(Swapped(v)) == v
  {
    var a, b, c, d := v / 0x100_0000, v / 0x1_0000 % 256, v / 0x100 % 256, v % 256;
    WordIsParts(v);
    SwappedParts(a, b, c, d);
    SwappedParts(d, c, b, a);
  }

  /** The words of a buffer of bytes. */
  function WordsOf(p: seq<nat>): (w: seq<nat>)
    requires |p| % 4 == 0
    ensures |w| == |p| / 4
  {
    seq(|p| / 4, k requires 0 <= k < |p| / 4 => BuildWord(p[4 * k..4 * k + 4]))
  }

  /** The host's view of a buffer of words, as bytes. */
  function HostView(w: seq<nat>): (p: seq<nat>)
    ensures |p| == 4 * |w|
  {
    seq(4 * |w|, k requires 0 <= k < 4 * |w| => HostBytes(w[k / 4])[k % 4])
  }

  /** `byteswapbuf` */
  method SwapBuffer(w: seq<nat>) returns (swapped: seq<nat>)
    ensures |swapped| == |w| && forall k | 0 <= k < |w| :: swapped[k] == Swapped(w[k])
  {
    swapped := w;
    var i := 0;
    while i < |w|
      invariant 0 <= i <= |w| == |swapped|
      invariant forall k | 0 <= k < i :: swapped[k] == Swapped(w[k])
      invariant forall k | i <= k < |w| :: swapped[k] == w[k]
    {
      swapped := swapped[i := Swapped(w[i])];
      i := i + 1;
    }
  }

  /** Reading words and swapping them gives the host the bytes that were read. */
  lemma SwappedBufferHoldsBytes(p: seq<nat>, swapped: seq<nat>)
    requires |p| % 4 == 0 && AreBytes(p) && |swapped| == |p| / 4
    requires forall k | 0 <= k < |swapped| :: swapped[k] == Swapped(WordsOf(p)[k])
    ensures HostView(swapped) == p
  {
    forall k | 0 <= k < |p|
      ensures HostView(swapped)[k] == p[k]
    {
      var q := p[4 * (k / 4)..4 * (k / 4) + 4];
      SwappedWordHoldsBytes(q);
      assert q[k % 4] == p[k];
    }
  }

  /** Buffers of words are equal exactly when the bytes are. */
  lemma WordsDetermineBytes(p: seq<nat>, q: seq<nat>)
    requires |p| % 4 == 0 && |p| == |q| && AreBytes(p) && AreBytes(q)
    ensures WordsOf(p) == WordsOf(q) <==> p == q
  {
    if WordsOf(p) == WordsOf(q) {
      forall k | 0 <= k < |p|
        ensures p[k] == q[k]
      {
        var i := k / 4;
        var x, y := p[4 * i..4 * i + 4], q[4 * i..4 * i + 4];
        assert WordsOf(p)[i] == BuildWord(x) && WordsOf(q)[i] == BuildWord(y);
        SwappedWordHoldsBytes(x);
        SwappedWordHoldsBytes(y);
        assert x[k % 4] == p[k] && y[k % 4] == q[k];
      }
    }
  }

  /** A word of all ones is four blank bytes. */
  lemma BlankWord(p: seq<nat>)
    requires |p| == 4 && AreBytes(p)
    ensures BuildWord(p) == 0xffff_ffff <==> p == [0xff, 0xff, 0xff, 0xff]
  {
    if BuildWord(p) == 0xffff_ffff {
      WordParts(p[0], p[1], p[2], p[3]);
      WordParts(0xff, 0xff, 0xff, 0xff);
    }
  }
}
