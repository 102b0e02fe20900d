/**
 * The two cyclic redundancy checks of the SD card model: CRC7 over commands and CRC16 over data
 * blocks (section 4.5 of the SD Physical Layer Simplified Specification).
 */
module SdCrc {
  import opened Words

  // ----- the serial registers the checks are defined by; bits are listed highest first

  /** The two feedback registers; the last position is always fed back. */
  datatype Poly = Command | Block {
    const Width: nat := if Command? then 7 else 16

    /** x^7 + x^3 + 1 and x^16 + x^12 + x^5 + 1 */
    predicate Tap(i: nat)
      ensures i == Width - 1 ==> Tap(i)
    {
      if Command? then i == 3 || i == 6 else i == 3 || i == 10 || i == 15
    }
  }

  function Zeros(n: nat): (z: seq<bool>)
    ensures |z| == n && forall i | 0 <= i < n :: !z[i]
  {
    seq(n, i => false)
  }

  /** One bit into the register `f`. */
  function Step(p: Poly, f: seq<bool>, bit: bool): (g: seq<bool>)
    requires |f| == p.Width
    ensures |g| == p.Width
    ensures forall i | 0 <= i < p.Width :: g[i] == ((i + 1 < p.Width && f[i + 1]) != (f[0] != bit && p.Tap(i)))
  {
    seq(p.Width, i requires 0 <= i < p.Width => (i + 1 < p.Width && f[i + 1]) != (f[0] != bit && p.Tap(i)))
  }

  /** The register `f` after a message, first bit first. */
  function Crc(p: Poly, f: seq<bool>, message: seq<bool>): (g: seq<bool>)
    requires |f| == p.Width
    ensures |g| == p.Width
    decreases |message|
  {
    if message == [] then f else Crc(p, Step(p, f, message[0]), message[1..])
  }

  /** The check of a message: the register starts clear. */
  function Check(p: Poly, message: seq<bool>): (g: seq<bool>)
    ensures |g| == p.Width
  {
    Crc(p, Zeros(p.Width), message)
  }

  lemma {:induction false} CrcAppend(p: Poly, f: seq<bool>, a: seq<bool>, b: seq<bool>)
    requires |f| == p.Width
    ensures Crc(p, f, a + b) == Crc(p, Crc(p, f, a), b)
    decreases |a|
  {
    if a == [] {
      assert a + b == b;
    } else {
      CrcAppend(p, Step(p, f, a[0]), a[1..], b);
      assert (a + b)[1..] == a[1..] + b;
    }
  }

  // ----- algebra

  /** Where two bit strings of equal length differ. */
  function Differ(a: seq<bool>, b: seq<bool>): (d: seq<bool>)
    requires |a| == |b|
    ensures |d| == |a|
    ensures forall i | 0 <= i < |a| :: d[i] == (a[i] != b[i])
  {
    seq(|a|, i requires 0 <= i < |a| => a[i] != b[i])
  }

  /** The check is linear over messages of equal length. */
  lemma {:induction false} CrcIsLinear(p: Poly, f: seq<bool>, g: seq<bool>, a: seq<bool>, b: seq<bool>)
    requires |f| == p.Width && |g| == p.Width && |a| == |b|
    ensures Crc(p, Differ(f, g), Differ(a, b)) == Differ(Crc(p, f, a), Crc(p, g, b))
    decreases |a|
  {
    if a != [] {
      assert Step(p, Differ(f, g), Differ(a, b)[0]) == Differ(Step(p, f, a[0]), Step(p, g, b[0]));
      CrcIsLinear(p, Step(p, f, a[0]), Step(p, g, b[0]), a[1..], b[1..]);
      assert Differ(a, b)[1..] == Differ(a[1..], b[1..]);
    }
  }

  lemma CheckIsLinear(p: Poly, a: seq<bool>, b: seq<bool>)
    requires |a| == |b|
    ensures Check(p, Differ(a, b)) == Differ(Check(p, a), Check(p, b))
  {
    var z := Zeros(p.Width);
    assert Differ(z, z) == z;
    CrcIsLinear(p, z, z, a, b);
  }

  /**
   * Up to a register's width of bits clears it exactly when they are the register's own: a message
   * followed by its check leaves zero, and nothing else of that length does.
   */
  lemma {:induction false} ClearedOnlyByOwnBits(p: Poly, f: seq<bool>, w: seq<bool>)
    requires |f| == p.Width && |w| <= p.Width
    ensures Crc(p, f, w) == Zeros(p.Width) <==> f == w + Zeros(p.Width - |w|)
    decreases |w|
  {
    if w == [] {
      assert w + Zeros(p.Width) == Zeros(p.Width);
    } else {
      var n, g := p.Width, Step(p, f, w[0]);
      var rest := w[1..] + Zeros(n - |w| + 1);
      ClearedOnlyByOwnBits(p, g, w[1..]);
      if f == w + Zeros(n - |w|) {
        assert g == rest;
      }
      if g == rest {
        assert !g[n - 1] && f[0] == w[0];
        forall i | 0 <= i < n
          ensures f[i] == (w + Zeros(n - |w|))[i]
        {
          if i > 0 {
            assert g[i - 1] == rest[i - 1];
          }
        }
        assert f == w + Zeros(n - |w|);
      }
    }
  }

  lemma CheckedMessageIsZero(p: Poly, message: seq<bool>, check: seq<bool>)
    requires |check| == p.Width
    ensures Check(p, message + check) == Zeros(p.Width) <==> check == Check(p, message)
  {
    var f := Check(p, message);
    CrcAppend(p, Zeros(p.Width), message, check);
    ClearedOnlyByOwnBits(p, f, check);
    assert check + Zeros(0) == check;
  }

  // ----- error detection

  /** `a` and `b` differ, and only within `n` consecutive bits. */
  ghost predicate Burst(a: seq<bool>, b: seq<bool>, n: nat) {
    && |a| == |b| && a != b
    && exists start: nat :: OnlyWithin(a, b, start, n)
  }

  ghost predicate OnlyWithin(a: seq<bool>, b: seq<bool>, start: nat, n: nat)
    requires |a| == |b|
  {
    forall i | 0 <= i < |a| :: a[i] != b[i] ==> start <= i < start + n
  }

  lemma {:induction false} ZerosKeepZero(p: Poly, n: nat)
    ensures Crc(p, Zeros(p.Width), Zeros(n)) == Zeros(p.Width)
    decreases n
  {
    if n > 0 {
      assert Step(p, Zeros(p.Width), false) == Zeros(p.Width);
      assert Zeros(n)[1..] == Zeros(n - 1);
      ZerosKeepZero(p, n - 1);
    }
  }

  /** The register never forgets: zero bits do not clear it. */
  lemma {:induction false} ZerosKeepNonzero(p: Poly, f: seq<bool>, n: nat)
    requires |f| == p.Width && f != Zeros(p.Width)
    ensures Crc(p, f, Zeros(n)) != Zeros(p.Width)
    decreases n
  {
    if n > 0 {
      var g := Step(p, f, false);
      assert f == Zeros(p.Width) || exists i :: 0 <= i < p.Width && f[i];
      var i :| 0 <= i < p.Width && f[i];
      assert if f[0] then g[p.Width - 1] else g[i - 1];
      assert Zeros(n)[1..] == Zeros(n - 1);
      ZerosKeepNonzero(p, g, n - 1);
    }
  }

  lemma WindowIsDetected(p: Poly, before: nat, w: seq<bool>, after: nat)
    requires |w| <= p.Width && true in w
    ensures Check(p, Zeros(before) + w + Zeros(after)) != Zeros(p.Width)
  {
    var z := Zeros(p.Width);
    CrcAppend(p, z, Zeros(before) + w, Zeros(after));
    CrcAppend(p, z, Zeros(before), w);
    ZerosKeepZero(p, before);
    ClearedOnlyByOwnBits(p, z, w);
    var i :| 0 <= i < |w| && w[i];
    assert (w + Zeros(p.Width - |w|))[i];
    ZerosKeepNonzero(p, Crc(p, z, w), after);
  }

  lemma BurstAsWindow(a: seq<bool>, b: seq<bool>, start: nat, n: nat) returns (lo: nat, w: seq<bool>, after: nat)
    requires |a| == |b| && a != b && OnlyWithin(a, b, start, n)
    ensures |w| <= n && true in w
    ensures Differ(a, b) == Zeros(lo) + w + Zeros(after)
  {
    var i :| 0 <= i < |a| && a[i] != b[i];
    OutsideIsZero(a, b, start, n);
    lo, w, after := WindowAround(Differ(a, b), start, n, i);
  }

  lemma WindowAround(d: seq<bool>, start: nat, n: nat, i: nat) returns (lo: nat, w: seq<bool>, after: nat)
    requires i < |d| && d[i] && forall k | 0 <= k < |d| :: d[k] ==> start <= k < start + n
    ensures |w| <= n && true in w && d == Zeros(lo) + w + Zeros(after)
  {
    var hi := if start + n < |d| then start + n else |d|;
    lo, w, after := start, d[start..hi], |d| - hi;
    ZerosAround(d, lo, hi);
    InWindow(d, lo, hi, i);
  }

  lemma InWindow(d: seq<bool>, lo: nat, hi: nat, i: nat)
    requires lo <= i < hi <= |d| && d[i]
    ensures true in d[lo..hi]
  {
    assert d[lo..hi][i - lo];
  }

  lemma OutsideIsZero(a: seq<bool>, b: seq<bool>, start: nat, n: nat)
    requires |a| == |b| && OnlyWithin(a, b, start, n)
    ensures forall i | 0 <= i < |a| :: Differ(a, b)[i] ==> start <= i < start + n
  {
  }

  lemma AllZeros(z: seq<bool>)
    requires forall i | 0 <= i < |z| :: !z[i]
    ensures z == Zeros(|z|)
  {
  }

  lemma ZerosAround(d: seq<bool>, lo: nat, hi: nat)
    requires lo <= hi <= |d|
    requires forall i | 0 <= i < |d| :: d[i] ==> lo <= i < hi
    ensures d == Zeros(lo) + d[lo..hi] + Zeros(|d| - hi)
  {
    AllZeros(d[..lo]);
    AllZeros(d[hi..]);
    assert d == d[..lo] + d[lo..hi] + d[hi..];
  }

  /** No burst of errors as short as the check goes unnoticed, wherever it falls. */
  lemma BurstIsDetected(p: Poly, a: seq<bool>, b: seq<bool>)
    requires Burst(a, b, p.Width)
    ensures Check(p, a) != Check(p, b)
  {
    var start: nat :| OnlyWithin(a, b, start, p.Width);
    var lo, w, after := BurstAsWindow(a, b, start, p.Width);
    WindowIsDetected(p, lo, w, after);
    CheckIsLinear(p, a, b);
    assert Differ(Check(p, a), Check(p, a)) == Zeros(p.Width);
  }

  // ----- the byte-wise loops

  type Byte = b: nat | b < 0x100

  /** The lower `n` bits of a word. */
  function Window(f: nat, n: nat): (s: seq<bool>)
    ensures |s| == n
    ensures forall i | 0 <= i < n :: s[i] == Bit(f, n - 1 - i)
  {
    seq(n, i requires 0 <= i < n => Bit(f, n - 1 - i))
  }

  /** The bits of a byte, highest first. */
  function ByteBits(b: Byte): (s: seq<bool>)
    ensures |s| == 8
  {
    Window(b, 8)
  }

  function Bits(data: seq<Byte>): (s: seq<bool>)
    ensures |s| == 8 * |data|
  {
    if data == [] then [] else Bits(data[..|data| - 1]) + ByteBits(data[|data| - 1])
  }

  /** `if (fill & (1 << top)) fill = (fill<<1)^taps; else fill <<= 1;` on 32 bits. */
  function ShiftReg(fill: nat, top: nat, taps: nat): nat {
    var shifted := (2 * fill) % TWO32;
    if Bit(fill, top) then Xor(shifted, taps) else shifted
  }

  lemma ShiftRegBits(fill: nat, top: nat, taps: nat, k: nat)
    requires k < 32
    ensures Bit(ShiftReg(fill, top, taps), k)
         == ((k > 0 && Bit(fill, k - 1)) != (Bit(fill, top) && Bit(taps, k)))
  {
    Pow2Words();
    BitOfLow(2 * fill, 32, k);
    BitOfDoubled(fill, 0, k);
    BitOfXor((2 * fill) % TWO32, taps, k);
  }

  /**
   * While a byte is fed in: the accumulator holds the serial register, its `top + 1` bits offset
   * by those of the byte not yet shifted out.
   */
  ghost predicate Feeding(p: Poly, top: nat, fill: nat, f: seq<bool>, pending: seq<bool>) {
    && |f| == p.Width && p.Width <= top + 1 && |pending| <= top + 1
    && forall k: nat | k <= top ::
      Bit(fill, k) == ((top - k < p.Width && f[top - k]) != (top - k < |pending| && pending[top - k]))
  }

  lemma FeedBit(p: Poly, top: nat, taps: nat, fill: nat, f: seq<bool>, pending: seq<bool>)
    requires Feeding(p, top, fill, f, pending) && pending != [] && top < 32
    requires forall k: nat | k <= top :: Bit(taps, k) == (top - k < p.Width && p.Tap(top - k))
    ensures Feeding(p, top, ShiftReg(fill, top, taps), Step(p, f, pending[0]), pending[1..])
  {
    var g := Step(p, f, pending[0]);
    forall k: nat | k <= top
      ensures Bit(ShiftReg(fill, top, taps), k)
           == ((top - k < p.Width && g[top - k]) != (top - k < |pending| - 1 && pending[1..][top - k]))
    {
      ShiftRegBits(fill, top, taps, k);
    }
  }

  lemma {:induction false} BitsOfSlice(data: seq<Byte>, i: nat)
    requires i < |data|
    ensures Bits(data[..i + 1]) == Bits(data[..i]) + ByteBits(data[i])
  {
    assert data[..i + 1][..i] == data[..i];
  }

  /** Feeding a byte's bits one at a time extends the message by the byte. */
  lemma ByteFed(p: Poly, data: seq<Byte>, i: nat, f: seq<bool>)
    requires i < |data| && f == Crc(p, Check(p, Bits(data[..i])), ByteBits(data[i]))
    ensures f == Check(p, Bits(data[..i + 1]))
  {
    BitsOfSlice(data, i);
    CrcAppend(p, Zeros(p.Width), Bits(data[..i]), ByteBits(data[i]));
  }

  lemma XorByte(p: Poly, top: nat, fill: nat, f: seq<bool>, word: nat, pending: seq<bool>)
    requires Feeding(p, top, fill, f, [])
    requires |pending| <= top + 1
    requires forall k: nat | k <= top :: Bit(word, k) == (top - k < |pending| && pending[top - k])
    ensures Feeding(p, top, Xor(fill, word), f, pending)
  {
    forall k: nat | k <= top
      ensures Bit(Xor(fill, word), k)
           == ((top - k < p.Width && f[top - k]) != (top - k < |pending| && pending[top - k]))
    {
      BitOfXor(fill, word, k);
    }
  }

  /** The inner loop: eight shifts feed in the bits of one byte. */
  method FeedByte(p: Poly, top: nat, taps: nat, start: nat, ghost f: seq<bool>, ghost pending: seq<bool>)
    returns (fill: nat)
    requires top < 32 && |pending| == 8
    requires Feeding(p, top, start, f, pending)
    requires forall k: nat | k <= top :: Bit(taps, k) == (top - k < p.Width && p.Tap(top - k))
    ensures |f| == p.Width && Feeding(p, top, fill, Crc(p, f, pending), [])
  {
    fill := start;
    ghost var g, rest := f, pending;
    for j := 0 to 8
      invariant |rest| == 8 - j
      invariant Feeding(p, top, fill, g, rest)
      invariant Crc(p, g, rest) == Crc(p, f, pending)
    {
      FeedBit(p, top, taps, fill, g, rest);
      fill := ShiftReg(fill, top, taps);
      g, rest := Step(p, g, rest[0]), rest[1..];
    }
  }

  // ----- CRC16 of a data block

  /** The bits of the taps, a digit at a time. */
  lemma BlockDigits()
    ensures Shr(0x1021, 4) == 0x102 && Shr(0x1021, 8) == 0x10 && Shr(0x1021, 12) == 1
  {
    assert Shr(0x1021, 4) == 0x102;
    assert Shr(0x102, 4) == 0x10;
    assert Shr(0x10, 4) == 1;
    ShrAdd(0x1021, 4, 4);
    ShrAdd(0x1021, 8, 4);
  }

  lemma DigitBit(x: nat, at: nat, k: nat)
    ensures Bit(x, at + k) == Bit(Shr(x, at), k)
  {
    ShrAdd(x, at, k);
  }

  lemma BlockTap(at: nat, k: nat)
    requires at in {0, 4, 8, 12} && k < 4
    ensures Bit(0x1021, at + k) == Block.Tap(15 - at - k)
  {
    BlockDigits();
    DigitBit(0x1021, at, k);
    assert Bit(1, 0) && !Bit(1, 1) && !Bit(1, 2) && !Bit(1, 3);
    assert !Bit(0x10, 0) && !Bit(0x10, 1) && !Bit(0x10, 2) && !Bit(0x10, 3);
    assert !Bit(0x102, 0) && Bit(0x102, 1) && !Bit(0x102, 2) && !Bit(0x102, 3);
    assert Bit(0x1021, 0) && !Bit(0x1021, 1) && !Bit(0x1021, 2) && !Bit(0x1021, 3);
  }

  lemma BlockTaps()
    ensures forall k: nat | k <= 15 :: Bit(0x1021, k) == Block.Tap(15 - k)
  {
    forall k: nat | k <= 15
      ensures Bit(0x1021, k) == Block.Tap(15 - k)
    {
      BlockTap(k / 4 * 4, k % 4);
    }
  }

  function UpperByte(b: Byte): nat {
    var n: nat := b;
    n * 0x100
  }

  lemma UpperByteBits(b: Byte)
    ensures forall k: nat | k <= 15 :: Bit(UpperByte(b), k) == (15 - k < 8 && ByteBits(b)[15 - k])
  {
    Pow2Words();
    forall k: nat | k <= 15
      ensures Bit(UpperByte(b), k) == (15 - k < 8 && ByteBits(b)[15 - k])
    {
      BitOfShifted(b, 8, k);
    }
  }

  lemma FeedingNothing(p: Poly, top: nat)
    requires p.Width <= top + 1
    ensures Feeding(p, top, 0, Check(p, Bits([])), [])
  {
    forall k: nat | k <= top
      ensures !Bit(0, k)
    {
      ZeroBits(k);
    }
  }

  /** `blockcrc` */
  method BlockCrc(len: nat, buf: array<Byte>, at: nat) returns (fill: nat)
    requires at + len <= buf.Length
    ensures fill < 0x1_0000
    ensures Window(fill, 16) == Check(Block, Bits(buf[at..at + len]))
  {
    fill := 0;
    ghost var data := buf[at..at + len];
    FeedingNothing(Block, 15);
    BlockTaps();
    for i := 0 to len
      invariant Feeding(Block, 15, fill, Check(Block, Bits(data[..i])), [])
    {
      ghost var f, bits := Check(Block, Bits(data[..i])), ByteBits(data[i]);
      UpperByteBits(data[i]);
      XorByte(Block, 15, fill, f, UpperByte(data[i]), bits);
      fill := Xor(fill, UpperByte(buf[at + i]));
      fill := FeedByte(Block, 15, 0x1021, fill, f, bits);
      ByteFed(Block, data, i, Crc(Block, f, bits));
    }
    assert data[..len] == data;
    LowWindow(fill);
    fill := fill % 0x1_0000;
  }

  lemma LowWindow(x: nat)
    ensures Window(x % 0x1_0000, 16) == Window(x, 16)
  {
    Pow2Words();
    forall i | 0 <= i < 16
      ensures Window(x % 0x1_0000, 16)[i] == Window(x, 16)[i]
    {
      BitOfLow(x, 16, 15 - i);
    }
  }

  /** `add_block_crc`: the data behind the start token and the two bytes added check to zero. */
  method AddBlockCrc(len: nat, buf: array<Byte>)
    requires len + 3 <= buf.Length
    modifies buf
    ensures forall i | 0 <= i < buf.Length && i != len + 1 && i != len + 2 :: buf[i] == old(buf[i])
    ensures Check(Block, Bits(buf[1..len + 3])) == Zeros(16)
  {
    var fill := BlockCrc(len, buf, 1);
    ghost var data := buf[1..len + 1];
    buf[len + 1] := fill / 0x100 % 0x100;
    buf[len + 2] := fill % 0x100;
    CheckedBlock(data, fill, buf[len + 1], buf[len + 2]);
    assert buf[1..len + 3] == data + [buf[len + 1], buf[len + 2]];
  }

  function Pair(hi: Byte, lo: Byte): (w: nat)
    ensures w < 0x1_0000
  {
    UpperByte(hi) + lo
  }

  /** A block and the two bytes after it check to zero exactly when the bytes are its CRC16. */
  lemma CheckedBlock(data: seq<Byte>, fill: nat, hi: Byte, lo: Byte)
    requires fill < 0x1_0000 && Window(fill, 16) == Check(Block, Bits(data))
    ensures Check(Block, Bits(data + [hi, lo])) == Zeros(16) <==> fill == Pair(hi, lo)
  {
    var w := Pair(hi, lo);
    TwoBytes(data, hi, lo);
    CheckedMessageIsZero(Block, Bits(data), Window(w, 16));
    if Window(w, 16) == Window(fill, 16) {
      forall k: nat | k < 16
        ensures Bit(w, k) == Bit(fill, k)
      {
        assert Window(w, 16)[15 - k] == Window(fill, 16)[15 - k];
      }
      Pow2Words();
      BitsDetermine(w, fill, 16);
    }
  }

  lemma TwoBytes(data: seq<Byte>, hi: Byte, lo: Byte)
    ensures Bits(data + [hi, lo]) == Bits(data) + Window(Pair(hi, lo), 16)
  {
    var w := Pair(hi, lo);
    var all := data + [hi, lo];
    assert all[..|data| + 1] == data + [hi];
    assert (data + [hi])[..|data|] == data;
    assert Bits(all) == Bits(data) + ByteBits(hi) + ByteBits(lo);
    PairBits(hi, lo);
  }

  lemma PairBits(hi: Byte, lo: Byte)
    ensures ByteBits(hi) + ByteBits(lo) == Window(Pair(hi, lo), 16)
  {
    var w := Pair(hi, lo);
    assert Shr(w, 8) == hi && w % 0x100 == lo by {
      ShrIsDiv(w, 8);
      Pow2Words();
    }
    forall i | 0 <= i < 16
      ensures Window(w, 16)[i] == (ByteBits(hi) + ByteBits(lo))[i]
    {
      if i < 8 {
        ShrAdd(w, 8, 7 - i);
      } else {
        assert Pow2(8) == 0x100;
        BitOfLow(w, 8, 15 - i);
      }
    }
  }

  /** A good block that a burst of up to 16 bits has damaged no longer checks. */
  lemma DamagedBlockIsDetected(sent: seq<bool>, received: seq<bool>)
    requires Check(Block, sent) == Zeros(16) && Burst(sent, received, 16)
    ensures Check(Block, received) != Zeros(16)
  {
    BurstIsDetected(Block, sent, received);
  }

  // ----- CRC7 of a command

  /** A command frame is good when its last bit is set and the check of the others is zero. */
  ghost predicate GoodFrame(bits: seq<bool>) {
    |bits| == 48 && bits[47] && Check(Command, bits[..47]) == Zeros(7)
  }

  /** No burst of up to seven bits turns a good command frame into another. */
  lemma DamagedFrameIsDetected(sent: seq<bool>, received: seq<bool>)
    requires GoodFrame(sent) && Burst(sent, received, 7)
    ensures !GoodFrame(received)
  {
    if received[47] {
      var start: nat :| OnlyWithin(sent, received, start, 7);
      assert OnlyWithin(sent[..47], received[..47], start, 7);
      assert sent == sent[..47] + [true] && received == received[..47] + [true];
      BurstIsDetected(Command, sent[..47], received[..47]);
    }
  }

  /** A `char` as the accumulator sees it: sign-extended to 32 bits. */
  function SignExtended(b: Byte): nat {
    if b < 0x80 then b else b + 0xffff_ff00
  }

  lemma CommandTaps()
    ensures forall k: nat | k <= 7 :: Bit(0x12, k) == (7 - k < 7 && Command.Tap(7 - k))
  {
    assert !Bit(0x12, 0) && Bit(0x12, 1) && !Bit(0x12, 2) && !Bit(0x12, 3);
    assert Bit(0x12, 4) && !Bit(0x12, 5) && !Bit(0x12, 6) && !Bit(0x12, 7);
  }

  lemma LowerByteBits(b: Byte)
    ensures forall k: nat | k <= 7 :: Bit(SignExtended(b), k) == ByteBits(b)[7 - k]
  {
    Pow2Words();
    assert SignExtended(b) % 0x100 == b;
    forall k: nat | k <= 7
      ensures Bit(SignExtended(b), k) == ByteBits(b)[7 - k]
    {
      BitOfLow(SignExtended(b), 8, k);
    }
  }

  /** `cmdcrc`: the seven check bits above a set end bit. */
  method CmdCrc(len: nat, buf: array<Byte>) returns (fill: nat)
    requires len <= buf.Length
    ensures fill < 0x100 && fill % 2 == 1
    ensures Window(fill / 2, 7) == Check(Command, Bits(buf[..len]))
  {
    fill := 0;
    ghost var data := buf[..len];
    FeedingNothing(Command, 7);
    CommandTaps();
    for i := 0 to len
      invariant Feeding(Command, 7, fill, Check(Command, Bits(data[..i])), [])
    {
      ghost var f, bits := Check(Command, Bits(data[..i])), ByteBits(data[i]);
      LowerByteBits(data[i]);
      XorByte(Command, 7, fill, f, SignExtended(data[i]), bits);
      fill := Xor(fill, SignExtended(buf[i]));
      fill := FeedByte(Command, 7, 0x12, fill, f, bits);
      ByteFed(Command, data, i, Crc(Command, f, bits));
    }
    assert data[..len] == data;
    ghost var whole := fill;
    fill := fill % 0x100 / 2 * 2;
    fill := Or(fill, 1);
    EndBit(whole, fill);
  }

  lemma EndBit(whole: nat, fill: nat)
    requires fill == Or(whole % 0x100 / 2 * 2, 1)
    ensures fill < 0x100 && fill % 2 == 1
    ensures forall i | 0 <= i < 7 :: Window(fill / 2, 7)[i] == Bit(whole, 7 - i)
  {
    var low := whole % 0x100;
    assert fill == low / 2 * 2 + 1 by {
      assert Pow2(1) == 2;
      OrIsSum(low / 2, 1, 1);
    }
    assert fill / 2 == low / 2;
    forall i | 0 <= i < 7
      ensures Window(fill / 2, 7)[i] == Bit(whole, 7 - i)
    {
      assert Pow2(8) == 0x100;
      BitOfLow(whole, 8, 7 - i);
      assert Bit(low, 7 - i) == Bit(low / 2, 6 - i);
    }
  }

  /** `check_cmdcrc` accepts exactly the good frames. */
  method CheckCmdCrc(buf: array<Byte>) returns (ok: bool)
    requires buf.Length >= 6
    ensures ok <==> GoodFrame(Bits(buf[..6]))
  {
    var fill := CmdCrc(5, buf);
    ok := fill == buf[5];
    assert buf[..6][..5] == buf[..5];
    FrameCheck(buf[..5], fill, buf[5]);
  }

  lemma FrameCheck(data: seq<Byte>, fill: nat, b: Byte)
    requires |data| == 5 && fill < 0x100 && fill % 2 == 1
    requires Window(fill / 2, 7) == Check(Command, Bits(data))
    ensures fill == b <==> GoodFrame(Bits(data) + ByteBits(b))
  {
    var bits := Bits(data) + ByteBits(b);
    assert bits[..47] == Bits(data) + Window(b / 2, 7);
    assert bits[47] == (b % 2 == 1);
    CheckedMessageIsZero(Command, Bits(data), Window(b / 2, 7));
    if Window(b / 2, 7) == Window(fill / 2, 7) {
      forall k: nat | k < 7
        ensures Bit(b / 2, k) == Bit(fill / 2, k)
      {
        assert Window(b / 2, 7)[6 - k] == Window(fill / 2, 7)[6 - k];
      }
      assert Pow2(7) == 0x80 by { Pow2Words(); assert Pow2(8) == 2 * Pow2(7); }
      BitsDetermine(b / 2, fill / 2, 7);
    }
  }
}
