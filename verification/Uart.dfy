/** The bit-serial port of the simulation: both halves of `DBLUARTSIM::tick`. */
module Uart {
  import opened Words

  type Byte = b: nat | b < 0x100

  /** A 32-bit shift register. */
  type Register = w: nat | w < TWO32

  /** `(line << 31) | (w >> 1)`: the two have no bit in common. */
  function PushTop(line: bool, w: Register): Register {
    (if line then 0x8000_0000 else 0) + w / 2
  }

  datatype Option<T> = None | Some(value: T)

  /** The fields of the setup word. */
  datatype Config = Config(baud: nat, nbits: nat, nstop: nat, parity: bool, fixed: bool, even: bool) {
    predicate Valid() {
      5 <= nbits <= 8 && 1 <= nstop <= 2
    }

    /** Bits of a frame after the start bit. */
    const Length: nat := nbits + (if parity then 1 else 0) + nstop
  }

  /** `setup` */
  function Setup(word: nat): (c: Config)
    ensures c.Valid()
  {
    Config(word % 0x100_0000, 8 - word / 0x1000_0000 % 4, word / 0x800_0000 % 2 + 1,
           word / 0x400_0000 % 2 == 1, word / 0x200_0000 % 2 == 1, word / 0x100_0000 % 2 == 1)
  }

  /** The setup word of a configuration. */
  function Packed(c: Config): int {
    c.baud + (if c.even then 0x100_0000 else 0) + (if c.fixed then 0x200_0000 else 0)
    + (if c.parity then 0x400_0000 else 0) + (c.nstop - 1) * 0x800_0000 + (8 - c.nbits) * 0x1000_0000
  }

  /** The fields are those of the setup word, bit for bit; its two upper bits are not used. */
  lemma SetupPacks(word: nat)
    requires word < TWO32
    ensures Setup(word).baud < 0x100_0000 && word % 0x4000_0000 == Packed(Setup(word))
  {
    var h := word / 0x100_0000;
    Quotients(word, h);
    LowSix(h);
    SplitLow(word, h);
    PackedFields(Setup(word), word % 0x100_0000, h % 2, h / 2 % 2, h / 4 % 2, h / 8 % 2, h / 16 % 4);
  }

  lemma PackedFields(c: Config, baud: nat, even: nat, fixed: nat, parity: nat, stop: nat, bits: nat)
    requires even < 2 && fixed < 2 && parity < 2 && stop < 2 && bits < 4
    requires c == Config(baud, 8 - bits, stop + 1, parity == 1, fixed == 1, even == 1)
    ensures Packed(c) == baud + even * 0x100_0000 + fixed * 0x200_0000 + parity * 0x400_0000 + stop * 0x800_0000 + bits * 0x1000_0000
  {
  }

  lemma SplitLow(word: nat, h: nat)
    requires h == word / 0x100_0000
    ensures word % 0x4000_0000 == h % 64 * 0x100_0000 + word % 0x100_0000
  {
    assert word == (h / 64 * 64 + h % 64) * 0x100_0000 + word % 0x100_0000;
  }

  lemma Quotients(word: nat, h: nat)
    requires h == word / 0x100_0000
    ensures word / 0x200_0000 == h / 2 && word / 0x400_0000 == h / 4
    ensures word / 0x800_0000 == h / 8 && word / 0x1000_0000 == h / 16
  {
  }

  lemma LowSix(h: nat)
    ensures h % 64 == h % 2 + 2 * (h / 2 % 2) + 4 * (h / 4 % 2) + 8 * (h / 8 % 2) + 16 * (h / 16 % 4)
  {
    HalveDiv(h, 32);
    HalveDiv(h / 2, 16);
    HalveDiv(h / 4, 8);
    HalveDiv(h / 8, 4);
    assert h / 2 / 2 == h / 4 && h / 4 / 2 == h / 8 && h / 8 / 2 == h / 16;
  }

  // ----- the transmitted frame

  /** The parity bit computed from the frame word so far. */
  function ParityBit(c: Config, word: nat): (p: nat)
    ensures p < 2
  {
    if c.fixed then (if c.even then 1 else 0)
    else
      var p := word / 2 % 0x100;
      var p1 := Xor(p, Shr(p, 4));
      var p2 := Xor(p1, Shr(p1, 2));
      var p3 := Xor(p2, Shr(p2, 1));
      Xor(p3 % 2, if c.even then 1 else 0) % 2
  }

  /** `m_tx_data` without parity: start bit, data, and ones from bit `n + 1` on. */
  function Stops(n: nat, ch: Byte): nat {
    Or(Shl(TWO32 - 1, n + 1, TWO32), 2 * ch)
  }

  /** `m_tx_data` when a byte is loaded. */
  function Frame(c: Config, ch: Byte): nat {
    if c.parity then
      var word := Stops(c.nbits + 1, ch);
      Or(word, Shl(ParityBit(c, word), c.nbits + 1, TWO32))
    else Stops(c.nbits, ch)
  }

  lemma StopsBits(n: nat, ch: Byte, k: nat)
    requires k < 32
    ensures Bit(Stops(n, ch), k) == (k > n || (k > 0 && Bit(ch, k - 1)))
  {
    BitOfShl(TWO32 - 1, n + 1, k);
    if k > n {
      Pow2Words();
      BitOfOnes(32, k - n - 1);
    }
    BitOfDoubled(ch, 0, k);
    BitOfOr(Shl(TWO32 - 1, n + 1, TWO32), 2 * ch, k);
  }

  /** The start bit is low, the data bits follow, and the line ends high. */
  lemma FrameBits(c: Config, ch: Byte, k: nat)
    requires c.Valid() && k < 32
    ensures k == 0 ==> !Bit(Frame(c, ch), k)
    ensures 1 <= k <= c.nbits ==> Bit(Frame(c, ch), k) == Bit(ch, k - 1)
    ensures k > c.Length - c.nstop ==> Bit(Frame(c, ch), k)
  {
    var n := c.nbits + if c.parity then 1 else 0;
    StopsBits(n, ch, k);
    if c.parity {
      var word := Stops(n, ch);
      BitOfShl(ParityBit(c, word), n, k);
      BitOfOr(word, Shl(ParityBit(c, word), n, TWO32), k);
    }
  }

  /** Unless it is fixed, the parity bit makes the data bits and itself even or odd in number. */
  lemma ParityIsParity(c: Config, word: nat)
    requires !c.fixed
    ensures var b := word / 2;
            (ParityBit(c, word) == 1) ==
            (Bit(b, 0) != (Bit(b, 1) != (Bit(b, 2) != (Bit(b, 3) != (Bit(b, 4) != (Bit(b, 5)
              != (Bit(b, 6) != (Bit(b, 7) != c.even))))))))
  {
    var p := word / 2 % 0x100;
    var p1 := Xor(p, Shr(p, 4));
    var p2 := Xor(p1, Shr(p1, 2));
    Folded(p, 4, 0); Folded(p, 4, 1); Folded(p, 4, 2); Folded(p, 4, 3);
    Folded(p1, 2, 0); Folded(p1, 2, 1);
    Folded(p2, 1, 0);
    LowBits(word / 2);
  }

  /** The eight bits the parity is taken of: the byte's, but ones past the place of the parity bit. */
  predicate Weighed(c: Config, ch: Byte, j: nat) {
    j > c.nbits || Bit(ch, j)
  }

  /** The bit behind the data is the parity bit, unless the byte has a bit there itself. */
  lemma ParityInFrame(c: Config, ch: Byte)
    requires c.Valid() && c.parity
    ensures Bit(Frame(c, ch), c.nbits + 1)
         == (Bit(ch, c.nbits)
             || if c.fixed then c.even
                else Weighed(c, ch, 0) != (Weighed(c, ch, 1) != (Weighed(c, ch, 2) != (Weighed(c, ch, 3) != (Weighed(c, ch, 4)
                     != (Weighed(c, ch, 5) != (Weighed(c, ch, 6) != (Weighed(c, ch, 7) != c.even))))))))
  {
    var n := c.nbits + 1;
    var word := Stops(n, ch);
    var p := ParityBit(c, word);
    BitOfShl(p, n, n);
    BitOfOr(word, Shl(p, n, TWO32), n);
    StopsBits(n, ch, n);
    if !c.fixed {
      ParityIsParity(c, word);
      forall j: nat | j < 8
        ensures Bit(word / 2, j) == Weighed(c, ch, j)
      {
        StopsBits(n, ch, j + 1);
      }
    }
  }

  /** The parity of a byte. */
  predicate Odd(ch: Byte) {
    Bit(ch, 0) != (Bit(ch, 1) != (Bit(ch, 2) != (Bit(ch, 3) != (Bit(ch, 4) != (Bit(ch, 5) != (Bit(ch, 6) != Bit(ch, 7)))))))
  }

  lemma {:induction false} HighBitsClear(x: nat, n: nat, j: nat)
    requires x < Pow2(n) && n <= j
    ensures !Bit(x, j)
    decreases n
  {
    if n == 0 {
      ZeroBits(j);
    } else {
      HighBitsClear(x / 2, n - 1, j - 1);
    }
  }

  /**
   * For a byte of the word size, the parity bit is what the setup says, but for six-bit words: there a
   * stop bit is weighed with the data, and the parity comes out inverted.
   */
  lemma ParityOfWord(c: Config, ch: Byte)
    requires c.Valid() && c.parity && ch < Pow2(c.nbits)
    ensures c.fixed ==> Bit(Frame(c, ch), c.nbits + 1) == c.even
    ensures !c.fixed ==> Bit(Frame(c, ch), c.nbits + 1) == ((Odd(ch) != c.even) != (c.nbits == 6))
  {
    ParityInFrame(c, ch);
    forall j: nat | j >= c.nbits
      ensures !Bit(ch, j)
    {
      HighBitsClear(ch, c.nbits, j);
    }
  }

  lemma Folded(p: nat, n: nat, k: nat)
    ensures Bit(Xor(p, Shr(p, n)), k) == (Bit(p, k) != Bit(p, n + k))
  {
    BitOfXor(p, Shr(p, n), k);
    BitOfShr(p, n, k);
  }

  lemma LowBits(x: nat)
    ensures forall k: nat | k < 8 :: Bit(x % 0x100, k) == Bit(x, k)
  {
    Pow2Words();
    forall k: nat | k < 8
      ensures Bit(x % 0x100, k) == Bit(x, k)
    {
      BitOfLow(x, 8, k);
    }
  }

  // ----- the two state machines of `tick`

  /** The transmit half. */
  datatype Tx = Tx(active: bool, counter: int, data: nat, busy: nat)

  /** The receive half; `log` is every character handed to `received`. */
  datatype Rx = Rx(active: bool, counter: int, busy: nat, data: Register, changectr: int, lastTx: bool, log: seq<nat>)

  /** One tick of the transmitter, with the byte `next` would return; the result is the line. */
  function TxTick(c: Config, tx: Tx, next: Option<Byte>): (Tx, bool)
    requires c.Valid()
  {
    if !tx.active then
      if next.None? then (tx, true)
      else (Tx(true, c.baud - 1, Frame(c, next.value), Pow2(c.Length + 1) - 1), false)
    else if tx.counter <= 0 then
      var data, busy := tx.data / 2, tx.busy / 2;
      (if busy == 0 then Tx(false, tx.counter, data, busy) else Tx(true, c.baud - 1, data, busy), data % 2 == 1)
    else
      (tx.(counter := tx.counter - 1), tx.data % 2 == 1)
  }

  /** One tick of the receiver. */
  function RxTick(c: Config, rx: Rx, line: bool): Rx
    requires c.Valid()
  {
    var ctr := if !line && rx.lastTx then 0 else rx.changectr + 1;
    var r := rx.(changectr := ctr, lastTx := line);
    if !rx.active then
      if line then r
      else r.(active := true, counter := c.baud + c.baud / 2 - 1 - ctr, busy := 0, data := 0)
    else if rx.counter <= 0 then RxEvent(c, r, line)
    else r.(counter := rx.counter - 1)
  }

  /** The middle of a bit: either one more sample, or the end of the frame. */
  function RxEvent(c: Config, rx: Rx, line: bool): Rx
    requires c.Valid()
  {
    if rx.busy >= Pow2(c.Length - 1) then
      rx.(active := false, counter := c.baud - 1, log := rx.log + [Character(c, rx.data)])
    else
      rx.(busy := 2 * rx.busy + 1, data := PushTop(line, rx.data), counter := c.baud - 1)
  }

  /** The byte taken from the receive shift register. */
  function Character(c: Config, data: nat): Byte
    requires c.Valid()
  {
    Shr(data, 32 - c.Length) % 0x100
  }

  // ----- what the receiver makes of a frame

  /** The receive shift register after `n` samples of a frame, one per bit after the start bit. */
  ghost function Sampled(frame: nat, n: nat): Register {
    if n == 0 then 0 else PushTop(Bit(frame, n), Sampled(frame, n - 1))
  }

  lemma PushTopBits(line: bool, w: Register, k: nat)
    ensures Bit(PushTop(line, w), k) == ((line && k == 31) || Bit(w, k + 1))
  {
    Pow2Words();
    if line {
      OrIsSum(1, 31, w / 2);
      BitOfOr(0x8000_0000, w / 2, k);
      BitOfShifted(1, 31, k);
      if k > 31 {
        ZeroBits(k - 32);
      }
    }
  }

  lemma {:induction false} SampledBits(frame: nat, n: nat, k: nat)
    requires n <= 32
    ensures Bit(Sampled(frame, n), k) == (32 - n <= k < 32 && Bit(frame, k + n - 31))
    decreases n
  {
    if n == 0 {
      ZeroBits(k);
    } else {
      SampledBits(frame, n - 1, k + 1);
      PushTopBits(Bit(frame, n), Sampled(frame, n - 1), k);
    }
  }

  /** The character delivered for a transmitted byte. */
  ghost function Delivery(c: Config, ch: Byte): Byte
    requires c.Valid()
  {
    Character(c, Sampled(Frame(c, ch), c.Length))
  }

  lemma DeliveryBits(c: Config, ch: Byte, k: nat)
    requires c.Valid() && k < 8
    ensures Bit(Delivery(c, ch), k) == (k < c.Length && Bit(Frame(c, ch), k + 1))
  {
    var data := Sampled(Frame(c, ch), c.Length);
    LowBits(Shr(data, 32 - c.Length));
    BitOfShr(data, 32 - c.Length, k);
    SampledBits(Frame(c, ch), c.Length, 32 - c.Length + k);
  }

  /** At every word size the data bits arrive; with eight of them, so does the byte. */
  lemma DataBitsArrive(c: Config, ch: Byte)
    requires c.Valid()
    ensures forall k: nat | k < c.nbits :: Bit(Delivery(c, ch), k) == Bit(ch, k)
    ensures c.nbits == 8 ==> Delivery(c, ch) == ch
  {
    forall k: nat | k < c.nbits
      ensures Bit(Delivery(c, ch), k) == Bit(ch, k)
    {
      DeliveryBits(c, ch, k);
      FrameBits(c, ch, k + 1);
    }
    if c.nbits == 8 {
      Pow2Words();
      BitsDetermine(Delivery(c, ch), ch, 8);
    }
  }

  /** With seven data bits and no parity the stop bit is delivered as the eighth data bit. */
  lemma SevenBitWordsGainTheStopBit(c: Config, ch: Byte)
    requires c.Valid() && c.nbits == 7 && !c.parity
    ensures Bit(Delivery(c, ch), 7)
  {
    DeliveryBits(c, ch, 7);
    FrameBits(c, ch, 8);
  }

  ghost function Deliveries(c: Config, s: seq<Byte>): (d: seq<nat>)
    requires c.Valid()
    ensures |d| == |s|
  {
    seq(|s|, i requires 0 <= i < |s| => Delivery(c, s[i]))
  }

  // ----- a transmitter wired to a receiver

  /** Where the pair is, after a tick, with times counted in ticks. */
  datatype Phase =
    | Quiet                                              // neither half is busy
    | Framed(ch: Byte, bit: nat, left: nat, samples: nat)  // both are in the same frame
    | Tail(ch: Byte, left: nat)                          // only the receiver is, in the last stop bit
    | Overlap(ch: Byte, next: Byte, left: nat, wait: nat)  // as Tail, but the next start bit is out
    | Late(next: Byte, left: nat)                        // a start bit is out the receiver has not seen
  {
    function Pending(): seq<Byte> {
      match this
      case Quiet => []
      case Framed(ch, _, _, _) => [ch]
      case Tail(ch, _) => [ch]
      case Overlap(ch, next, _, _) => [ch, next]
      case Late(next, _) => [next]
    }
  }

  /** Ticks per bit; a baud count of zero acts like one. */
  function Period(c: Config): (t: nat)
    ensures t >= 1
  {
    if c.baud == 0 then 1 else c.baud
  }

  /** The transmitter is `left` ticks from the end of a bit of a frame. */
  ghost predicate Sending(c: Config, tx: Tx, ch: Byte, bit: nat, left: nat)
    requires c.Valid()
  {
    && tx.active && bit <= c.Length && left < Period(c)
    && tx.counter == left - Period(c) + c.baud
    && tx.data == Shr(Frame(c, ch), bit)
    && tx.busy == Pow2(c.Length + 1 - bit) - 1
  }

  /** The receiver has so many samples of a frame and waits for the next event. */
  ghost predicate Sampling(c: Config, rx: Rx, ch: Byte, samples: nat, wait: int)
    requires c.Valid()
  {
    && rx.active && samples <= c.Length && 0 <= wait && (c.baud == 0 ==> wait == 0)
    && rx.counter == wait - Period(c) + c.baud
    && rx.data == Sampled(Frame(c, ch), samples)
    && rx.busy == Pow2(samples) - 1
  }

  ghost predicate Linked(c: Config, tx: Tx, rx: Rx, sent: seq<Byte>, ph: Phase)
    requires c.Valid()
  {
    var period, half := Period(c), c.baud / 2;
    && rx.log + Deliveries(c, ph.Pending()) == Deliveries(c, sent)
    && match ph
       case Quiet => !tx.active && !rx.active && rx.lastTx
       case Framed(ch, bit, left, samples) =>
         && Sending(c, tx, ch, bit, left)
         && (samples == bit || samples + 1 == bit)
         && Sampling(c, rx, ch, samples, half + left - if samples == bit then 0 else period)
       case Tail(ch, left) =>
         !tx.active && rx.lastTx && left < half && Sampling(c, rx, ch, c.Length, left)
       case Overlap(ch, next, left, wait) =>
         && Sending(c, tx, next, 0, left) && Sampling(c, rx, ch, c.Length, wait)
         && period - 1 - left + wait + 2 <= half
         && !rx.lastTx && rx.changectr == period - 1 - left
       case Late(next, left) =>
         && Sending(c, tx, next, 0, left) && !rx.active
         && period - 1 - left < half
         && !rx.lastTx && rx.changectr == period - 1 - left
  }

  lemma OnesHalve(n: nat)
    requires n > 0
    ensures (Pow2(n) - 1) / 2 == Pow2(n - 1) - 1
    ensures Pow2(n - 1) - 1 == 0 <==> n == 1
  {
    assert Pow2(n) == 2 * Pow2(n - 1);
    if n > 1 {
      assert Pow2(n - 1) == 2 * Pow2(n - 2);
    }
  }

  /** One tick of a transmitter within a frame. */
  lemma SendingTick(c: Config, tx: Tx, ch: Byte, bit: nat, left: nat, next: Option<Byte>)
    requires c.Valid() && Sending(c, tx, ch, bit, left)
    ensures var (tx', line) := TxTick(c, tx, next);
            if left > 0 then Sending(c, tx', ch, bit, left - 1) && line == Bit(Frame(c, ch), bit)
            else if bit < c.Length then
              Sending(c, tx', ch, bit + 1, Period(c) - 1) && line == Bit(Frame(c, ch), bit + 1)
            else !tx'.active && line
  {
    if left == 0 {
      OnesHalve(c.Length + 1 - bit);
      ShrAdd(Frame(c, ch), bit, 1);
      if bit == c.Length {
        FrameBits(c, ch, bit + 1);
      }
    }
  }

  /** The transmitter over some ticks, and the line at each of them. */
  ghost function TxRun(c: Config, tx: Tx, offers: seq<Option<Byte>>): (r: (Tx, seq<bool>))
    requires c.Valid()
    ensures |r.1| == |offers|
    decreases |offers|
  {
    if offers == [] then (tx, [])
    else
      var (tx', line) := TxTick(c, tx, offers[0]);
      var (end, lines) := TxRun(c, tx', offers[1..]);
      (end, [line] + lines)
  }

  lemma NextPlace(p: nat, bit: nat, left: nat, k: nat)
    requires left < p && k == bit * p + (p - 1 - left) + 1
    ensures left > 0 ==> k / p == bit && k == bit * p + (p - 1 - (left - 1))
    ensures left == 0 ==> k / p == bit + 1 && k == (bit + 1) * p + (p - 1 - (p - 1))
  {
    assert (bit + 1) * p == bit * p + p;
    if left > 0 {
      DivModUnique(k, p, bit, p - left);
    } else {
      DivModUnique(k, p, bit + 1, 0);
    }
  }

  lemma PlaceInFrame(c: Config, bit: nat, k: nat, n: nat)
    requires c.Valid() && k == (bit + 1) * Period(c) && k + n <= (c.Length + 1) * Period(c) && n > 0
    ensures bit < c.Length
  {
    if bit >= c.Length {
      MulMonotone(c.Length + 1, bit + 1, Period(c));
    }
  }

  /** The bit of a frame that is out `k` ticks after it began. */
  ghost predicate BitOut(c: Config, ch: Byte, k: nat) {
    Bit(Frame(c, ch), k / Period(c))
  }

  /** The line from `k` ticks into a frame on. */
  ghost predicate Shows(c: Config, ch: Byte, k: nat, lines: seq<bool>) {
    forall j | 0 <= j < |lines| :: lines[j] == BitOut(c, ch, k + j)
  }

  lemma ShowsOn(c: Config, ch: Byte, k: nat, line: bool, lines: seq<bool>)
    requires line == BitOut(c, ch, k) && Shows(c, ch, k + 1, lines)
    ensures Shows(c, ch, k, [line] + lines)
  {
    forall j | 0 <= j < |lines| + 1
      ensures ([line] + lines)[j] == BitOut(c, ch, k + j)
    {
      if j > 0 {
        assert lines[j - 1] == BitOut(c, ch, k + 1 + (j - 1));
      }
    }
  }

  /** `k` ticks into a frame; the line carries on with it. */
  lemma {:induction false} FrameGoesOn(c: Config, tx: Tx, ch: Byte, bit: nat, left: nat, k: nat, offers: seq<Option<Byte>>)
    requires c.Valid() && Sending(c, tx, ch, bit, left) && k == bit * Period(c) + (Period(c) - 1 - left) + 1
    requires k + |offers| <= (c.Length + 1) * Period(c)
    ensures Shows(c, ch, k, TxRun(c, tx, offers).1)
    decreases |offers|
  {
    if offers != [] {
      var (tx', line) := TxTick(c, tx, offers[0]);
      SendingTick(c, tx, ch, bit, left, offers[0]);
      NextPlace(Period(c), bit, left, k);
      if left > 0 {
        FrameGoesOn(c, tx', ch, bit, left - 1, k + 1, offers[1..]);
      } else {
        PlaceInFrame(c, bit, k, |offers|);
        FrameGoesOn(c, tx', ch, bit + 1, Period(c) - 1, k + 1, offers[1..]);
      }
      ShowsOn(c, ch, k, line, TxRun(c, tx', offers[1..]).1);
    }
  }

  /**
   * On the wire: a byte offered to an idle transmitter goes out bit by bit, each for a whole period,
   * whatever is offered meanwhile.
   */
  lemma FrameGoesOut(c: Config, tx: Tx, ch: Byte, offers: seq<Option<Byte>>)
    requires c.Valid() && !tx.active && offers != [] && offers[0] == Some(ch) && |offers| <= (c.Length + 1) * Period(c)
    ensures Shows(c, ch, 0, TxRun(c, tx, offers).1)
  {
    FrameBegins(c, tx, ch);
    FrameBits(c, ch, 0);
    var (tx', line) := TxTick(c, tx, Some(ch));
    DivModUnique(0, Period(c), 0, 0);
    FrameGoesOn(c, tx', ch, 0, Period(c) - 1, 1, offers[1..]);
    ShowsOn(c, ch, 0, line, TxRun(c, tx', offers[1..]).1);
  }

  lemma SamplesCount(c: Config, n: nat)
    requires c.Valid() && n <= c.Length
    ensures Pow2(n) - 1 >= Pow2(c.Length - 1) <==> n == c.Length
  {
    if n < c.Length {
      Pow2Monotone(n, c.Length - 1);
    } else {
      assert Pow2(n) == 2 * Pow2(n - 1);
    }
  }

  /** One tick of a receiver within a frame. */
  lemma SamplingTick(c: Config, rx: Rx, ch: Byte, samples: nat, wait: nat, line: bool)
    requires c.Valid() && Sampling(c, rx, ch, samples, wait)
    requires wait == 0 && samples < c.Length ==> line == Bit(Frame(c, ch), samples + 1)
    ensures var rx' := RxTick(c, rx, line);
            && rx'.lastTx == line
            && rx'.changectr == (if !line && rx.lastTx then 0 else rx.changectr + 1)
            && (if wait > 0 then Sampling(c, rx', ch, samples, wait - 1) && rx'.log == rx.log
                else if samples < c.Length then
                  Sampling(c, rx', ch, samples + 1, Period(c) - 1) && rx'.log == rx.log
                else !rx'.active && rx'.log == rx.log + [Delivery(c, ch)])
  {
    if wait == 0 {
      SamplesCount(c, samples);
    }
  }

  lemma DeliveriesAppend(c: Config, a: seq<Byte>, b: seq<Byte>)
    requires c.Valid()
    ensures Deliveries(c, a + b) == Deliveries(c, a) + Deliveries(c, b)
  {
  }

  /** One tick of the pair: the transmitter's line is the receiver's input. */
  function PairTick(c: Config, tx: Tx, rx: Rx, sent: seq<Byte>, next: Option<Byte>): (Tx, Rx, seq<Byte>)
    requires c.Valid()
  {
    var (tx', line) := TxTick(c, tx, next);
    (tx', RxTick(c, rx, line), if !tx.active && next.Some? then sent + [next.value] else sent)
  }

  lemma FrameBegins(c: Config, tx: Tx, ch: Byte)
    requires c.Valid() && !tx.active
    ensures var (tx', line) := TxTick(c, tx, Some(ch));
            Sending(c, tx', ch, 0, Period(c) - 1) && !line
  {
  }

  /** The receiver sees a start bit `late` ticks after its falling edge. */
  lemma StartSeen(c: Config, rx: Rx, ch: Byte, late: nat)
    requires c.Valid() && !rx.active && late <= c.baud / 2
    requires if rx.lastTx then late == 0 else rx.changectr + 1 == late
    ensures var rx' := RxTick(c, rx, false);
            && Sampling(c, rx', ch, 0, c.baud / 2 + (Period(c) - 1 - late)) && rx'.log == rx.log
  {
  }

  // ----- every tick keeps the pair linked

  /** Where a tick takes the pair. */
  ghost function Follow(c: Config, ph: Phase, next: Option<Byte>): Phase
    requires c.Valid()
  {
    var period := Period(c);
    match ph
    case Quiet => if next.None? then Quiet else Framed(next.value, 0, period - 1, 0)
    case Framed(ch, bit, left, samples) =>
      var sampled := if Wait(c, ph) > 0 then samples else samples + 1;
      if left > 0 then Framed(ch, bit, left - 1, sampled)
      else if bit < c.Length then Framed(ch, bit + 1, period - 1, sampled)
      else if Wait(c, ph) > 0 then Tail(ch, Wait(c, ph) - 1)
      else Quiet
    case Tail(ch, left) =>
      if next.None? then (if left > 0 then Tail(ch, left - 1) else Quiet)
      else if left > 0 then Overlap(ch, next.value, period - 1, left - 1)
      else Late(next.value, period - 1)
    case Overlap(ch, n, left, wait) =>
      if left == 0 then Quiet
      else if wait > 0 then Overlap(ch, n, left - 1, wait - 1) else Late(n, left - 1)
    case Late(n, left) => if left == 0 then Quiet else Framed(n, 0, left - 1, 0)
  }

  /** Ticks until the receiver's next event within a frame. */
  ghost function Wait(c: Config, ph: Phase): int
    requires ph.Framed?
  {
    c.baud / 2 + ph.left - if ph.samples == ph.bit then 0 else Period(c)
  }

  ghost predicate Follows(c: Config, tx: Tx, rx: Rx, sent: seq<Byte>, ph: Phase, next: Option<Byte>)
    requires c.Valid()
  {
    var (tx', rx', sent') := PairTick(c, tx, rx, sent, next);
    Linked(c, tx', rx', sent', Follow(c, ph, next))
  }

  lemma LinkTickQuiet(c: Config, tx: Tx, rx: Rx, sent: seq<Byte>, next: Option<Byte>)
    requires c.Valid() && Linked(c, tx, rx, sent, Quiet)
    ensures Follows(c, tx, rx, sent, Quiet, next)
  {
    if next.Some? {
      FrameBegins(c, tx, next.value);
      StartSeen(c, rx, next.value, 0);
      DeliveriesAppend(c, sent, [next.value]);
    }
  }

  lemma LinkTickWithinBit(c: Config, tx: Tx, rx: Rx, sent: seq<Byte>, next: Option<Byte>, ph: Phase)
    requires c.Valid() && ph.Framed? && ph.left > 0 && Linked(c, tx, rx, sent, ph)
    ensures Follows(c, tx, rx, sent, ph, next)
  {
    SendingTick(c, tx, ph.ch, ph.bit, ph.left, next);
    SamplingTick(c, rx, ph.ch, ph.samples, Wait(c, ph), TxTick(c, tx, next).1);
  }

  lemma LinkTickBitEnd(c: Config, tx: Tx, rx: Rx, sent: seq<Byte>, next: Option<Byte>, ph: Phase)
    requires c.Valid() && ph.Framed? && ph.left == 0 && ph.bit < c.Length && Linked(c, tx, rx, sent, ph)
    ensures Follows(c, tx, rx, sent, ph, next)
  {
    SendingTick(c, tx, ph.ch, ph.bit, 0, next);
    SamplingTick(c, rx, ph.ch, ph.samples, Wait(c, ph), TxTick(c, tx, next).1);
  }

  lemma LinkTickFrameEnd(c: Config, tx: Tx, rx: Rx, sent: seq<Byte>, next: Option<Byte>, ph: Phase)
    requires c.Valid() && ph.Framed? && ph.left == 0 && ph.bit == c.Length && Linked(c, tx, rx, sent, ph)
    ensures Follows(c, tx, rx, sent, ph, next)
  {
    SendingTick(c, tx, ph.ch, ph.bit, 0, next);
    SamplingTick(c, rx, ph.ch, ph.samples, Wait(c, ph), TxTick(c, tx, next).1);
    DeliveriesAppend(c, [ph.ch], []);
  }

  lemma LinkTickTail(c: Config, tx: Tx, rx: Rx, sent: seq<Byte>, next: Option<Byte>, ph: Phase)
    requires c.Valid() && ph.Tail? && Linked(c, tx, rx, sent, ph)
    ensures Follows(c, tx, rx, sent, ph, next)
  {
    SamplingTick(c, rx, ph.ch, c.Length, ph.left, TxTick(c, tx, next).1);
    if next.Some? {
      FrameBegins(c, tx, next.value);
      DeliveriesAppend(c, sent, [next.value]);
      DeliveriesAppend(c, [ph.ch], [next.value]);
    }
  }

  /** The start bit of a frame that follows closely: the receiver finishes with the last one first. */
  lemma LinkTickOverlap(c: Config, tx: Tx, rx: Rx, sent: seq<Byte>, next: Option<Byte>, ph: Phase)
    requires c.Valid() && ph.Overlap? && Linked(c, tx, rx, sent, ph)
    ensures Follows(c, tx, rx, sent, ph, next)
  {
    SendingTick(c, tx, ph.next, 0, ph.left, next);
    FrameBits(c, ph.next, 0);
    SamplingTick(c, rx, ph.ch, c.Length, ph.wait, TxTick(c, tx, next).1);
    DeliveriesAppend(c, [ph.ch], [ph.next]);
  }

  /** The edge counter makes up for the start bit having been seen late. */
  lemma LinkTickLate(c: Config, tx: Tx, rx: Rx, sent: seq<Byte>, next: Option<Byte>, ph: Phase)
    requires c.Valid() && ph.Late? && Linked(c, tx, rx, sent, ph)
    ensures Follows(c, tx, rx, sent, ph, next)
  {
    SendingTick(c, tx, ph.next, 0, ph.left, next);
    FrameBits(c, ph.next, 0);
    StartSeen(c, rx, ph.next, Period(c) - ph.left);
  }

  lemma LinkTick(c: Config, tx: Tx, rx: Rx, sent: seq<Byte>, next: Option<Byte>, ph: Phase)
    requires c.Valid() && Linked(c, tx, rx, sent, ph)
    ensures Follows(c, tx, rx, sent, ph, next)
  {
    match ph
    case Quiet => LinkTickQuiet(c, tx, rx, sent, next);
    case Framed(_, bit, left, _) =>
      if left > 0 {
        LinkTickWithinBit(c, tx, rx, sent, next, ph);
      } else if bit < c.Length {
        LinkTickBitEnd(c, tx, rx, sent, next, ph);
      } else {
        LinkTickFrameEnd(c, tx, rx, sent, next, ph);
      }
    case Tail(_, _) => LinkTickTail(c, tx, rx, sent, next, ph);
    case Overlap(_, _, _, _) => LinkTickOverlap(c, tx, rx, sent, next, ph);
    case Late(_, _) => LinkTickLate(c, tx, rx, sent, next, ph);
  }

  // ----- whole runs

  /** The pair after one tick for each offer of a byte to send. */
  ghost function Run(c: Config, tx: Tx, rx: Rx, sent: seq<Byte>, offers: seq<Option<Byte>>): (Tx, Rx, seq<Byte>)
    requires c.Valid()
    decreases |offers|
  {
    if offers == [] then (tx, rx, sent)
    else
      var (tx', rx', sent') := PairTick(c, tx, rx, sent, offers[0]);
      Run(c, tx', rx', sent', offers[1..])
  }

  ghost function FollowAll(c: Config, ph: Phase, offers: seq<Option<Byte>>): Phase
    requires c.Valid()
    decreases |offers|
  {
    if offers == [] then ph else FollowAll(c, Follow(c, ph, offers[0]), offers[1..])
  }

  lemma {:induction false} LinkRun(c: Config, tx: Tx, rx: Rx, sent: seq<Byte>, ph: Phase, offers: seq<Option<Byte>>)
    requires c.Valid() && Linked(c, tx, rx, sent, ph)
    ensures var (tx', rx', sent') := Run(c, tx, rx, sent, offers);
            Linked(c, tx', rx', sent', FollowAll(c, ph, offers))
    decreases |offers|
  {
    if offers != [] {
      var (tx', rx', sent') := PairTick(c, tx, rx, sent, offers[0]);
      LinkTick(c, tx, rx, sent, offers[0], ph);
      LinkRun(c, tx', rx', sent', Follow(c, ph, offers[0]), offers[1..]);
    }
  }

  /** Both halves idle, the line having been high for a tick. */
  predicate AtRest(tx: Tx, rx: Rx) {
    !tx.active && !rx.active && rx.lastTx && rx.log == []
  }

  /**
   * Whatever bytes are offered, at whatever ticks and at whatever baud count, the characters received
   * so far are the bytes sent, in order, but for the last two at most; and all of them once both
   * halves are idle and the line is high.
   */
  lemma LoopbackDelivers(c: Config, tx: Tx, rx: Rx, offers: seq<Option<Byte>>)
    requires c.Valid() && AtRest(tx, rx)
    ensures var (tx', rx', sent) := Run(c, tx, rx, [], offers);
            && |rx'.log| <= |sent| <= |rx'.log| + 2
            && rx'.log == Deliveries(c, sent)[..|rx'.log|]
            && (!tx'.active && !rx'.active ==> rx'.log == Deliveries(c, sent))
  {
    LinkRun(c, tx, rx, [], Quiet, offers);
    var (tx', rx', sent) := Run(c, tx, rx, [], offers);
    var ph := FollowAll(c, Quiet, offers);
    var d := Deliveries(c, sent);
    assert d == rx'.log + Deliveries(c, ph.Pending());
    assert d[..|rx'.log|] == rx'.log;
  }

  lemma EightBitDeliveries(c: Config, s: seq<Byte>)
    requires c.Valid() && c.nbits == 8
    ensures Deliveries(c, s) == s
  {
    forall i | 0 <= i < |s|
      ensures Deliveries(c, s)[i] == s[i]
    {
      DataBitsArrive(c, s[i]);
    }
  }

  /** With eight data bits the bytes themselves arrive. */
  lemma LoopbackDeliversBytes(c: Config, tx: Tx, rx: Rx, offers: seq<Option<Byte>>)
    requires c.Valid() && c.nbits == 8 && AtRest(tx, rx)
    ensures var (tx', rx', sent) := Run(c, tx, rx, [], offers);
            && |sent| <= |rx'.log| + 2 && rx'.log <= sent
            && (!tx'.active && !rx'.active ==> rx'.log == sent)
  {
    LoopbackDelivers(c, tx, rx, offers);
    EightBitDeliveries(c, Run(c, tx, rx, [], offers).2);
  }

  // ----- nothing stays in flight

  /** Ticks until the pair can be quiet, if no more bytes are offered. */
  ghost function Rank(c: Config, ph: Phase): nat
    requires c.Valid()
  {
    match ph
    case Quiet => 0
    case Tail(_, left) => left + 1
    case Framed(_, bit, left, _) => FrameRank(c, bit, left)
    case Overlap(_, _, left, _) => FrameRank(c, 0, left)
    case Late(_, left) => FrameRank(c, 0, left)
  }

  ghost function FrameRank(c: Config, bit: nat, left: nat): nat
    requires c.Valid()
  {
    (if bit <= c.Length then BitTimes(c, c.Length - bit) else 0) + left + c.baud / 2 + 1
  }

  /** The ticks of `n` bits. */
  ghost function BitTimes(c: Config, n: nat): nat {
    if n == 0 then 0 else Period(c) + BitTimes(c, n - 1)
  }

  lemma {:induction false} BitTimesMonotone(c: Config, m: nat, n: nat)
    requires m <= n
    ensures BitTimes(c, m) <= BitTimes(c, n)
  {
    if m < n {
      BitTimesMonotone(c, m, n - 1);
    }
  }

  lemma {:induction false} BitTimesProduct(c: Config, n: nat)
    ensures BitTimes(c, n) == n * Period(c)
  {
    if n > 0 {
      BitTimesProduct(c, n - 1);
      assert n * Period(c) == (n - 1) * Period(c) + Period(c);
    }
  }

  /** The phases a linked pair can be in. */
  ghost predicate Possible(c: Config, ph: Phase)
    requires c.Valid()
  {
    match ph
    case Quiet => true
    case Framed(_, bit, left, samples) =>
      bit <= c.Length && left < Period(c) && (samples == bit || samples + 1 == bit) && samples <= c.Length
    case Tail(_, left) => left < c.baud / 2
    case Overlap(_, _, left, wait) => left < Period(c) && Period(c) - 1 - left + wait + 2 <= c.baud / 2
    case Late(_, left) => left < Period(c) && Period(c) - 1 - left < c.baud / 2
  }

  lemma SilentTick(c: Config, ph: Phase)
    requires c.Valid() && Possible(c, ph)
    ensures Possible(c, Follow(c, ph, None))
    ensures if ph.Quiet? then Follow(c, ph, None).Quiet? else Rank(c, Follow(c, ph, None)) < Rank(c, ph)
  {
  }

  lemma RankBound(c: Config, ph: Phase)
    requires c.Valid() && Possible(c, ph)
    ensures Rank(c, ph) <= BitTimes(c, c.Length + 1) + c.baud / 2
  {
    if ph.Framed? {
      BitTimesMonotone(c, c.Length - ph.bit, c.Length);
    }
    assert BitTimes(c, c.Length + 1) == Period(c) + BitTimes(c, c.Length);
  }

  /** `n` ticks without an offer. */
  ghost function Silence(n: nat): (s: seq<Option<Byte>>)
    ensures |s| == n
  {
    if n == 0 then [] else [None] + Silence(n - 1)
  }

  lemma {:induction false} SilenceEndsQuiet(c: Config, ph: Phase, n: nat)
    requires c.Valid() && Possible(c, ph) && Rank(c, ph) <= n
    ensures FollowAll(c, ph, Silence(n)) == Quiet
    decreases n
  {
    if n > 0 {
      assert Silence(n)[1..] == Silence(n - 1);
      SilentTick(c, ph);
      SilenceEndsQuiet(c, Follow(c, ph, None), n - 1);
    }
  }

  lemma {:induction false} SilenceSendsNothing(c: Config, tx: Tx, rx: Rx, sent: seq<Byte>, n: nat)
    requires c.Valid()
    ensures Run(c, tx, rx, sent, Silence(n)).2 == sent
    decreases n
  {
    if n > 0 {
      assert Silence(n)[1..] == Silence(n - 1);
      var (tx', rx', sent') := PairTick(c, tx, rx, sent, None);
      SilenceSendsNothing(c, tx', rx', sent, n - 1);
    }
  }

  lemma {:induction false} RunAppend(c: Config, tx: Tx, rx: Rx, sent: seq<Byte>, a: seq<Option<Byte>>, b: seq<Option<Byte>>)
    requires c.Valid()
    ensures var (tx', rx', sent') := Run(c, tx, rx, sent, a);
            Run(c, tx, rx, sent, a + b) == Run(c, tx', rx', sent', b)
    decreases |a|
  {
    if a == [] {
      assert a + b == b;
    } else {
      var (tx', rx', sent') := PairTick(c, tx, rx, sent, a[0]);
      RunAppend(c, tx', rx', sent', a[1..], b);
      assert (a + b)[1..] == a[1..] + b;
    }
  }

  lemma LinkedPossible(c: Config, tx: Tx, rx: Rx, sent: seq<Byte>, ph: Phase)
    requires c.Valid() && Linked(c, tx, rx, sent, ph)
    ensures Possible(c, ph)
    ensures ph.Quiet? ==> rx.log == Deliveries(c, sent)
  {
    DeliveriesAppend(c, sent, []);
  }

  /** A frame and half a bit after the last offer, everything sent has arrived. */
  lemma LoopbackDrains(c: Config, tx: Tx, rx: Rx, offers: seq<Option<Byte>>, n: nat)
    requires c.Valid() && AtRest(tx, rx)
    requires n >= (c.Length + 1) * Period(c) + c.baud / 2
    ensures Run(c, tx, rx, [], offers + Silence(n)).1.log == Deliveries(c, Run(c, tx, rx, [], offers).2)
  {
    LinkRun(c, tx, rx, [], Quiet, offers);
    var (tx1, rx1, sent) := Run(c, tx, rx, [], offers);
    var ph := FollowAll(c, Quiet, offers);
    LinkedPossible(c, tx1, rx1, sent, ph);
    RankBound(c, ph);
    BitTimesProduct(c, c.Length + 1);
    SilenceEndsQuiet(c, ph, n);
    LinkRun(c, tx1, rx1, sent, ph, Silence(n));
    var (tx2, rx2, sent2) := Run(c, tx1, rx1, sent, Silence(n));
    LinkedPossible(c, tx2, rx2, sent2, Quiet);
    SilenceSendsNothing(c, tx1, rx1, sent, n);
    RunAppend(c, tx, rx, [], offers, Silence(n));
  }

  // ----- the class

  class DblUart {
    var config: Config
    // the receive half
    var rxBaudCounter: int
    var rxActive: bool
    var rxBusy: nat
    var rxData: Register
    var rxChangeCtr: int
    var lastTx: bool
    // the transmit half
    var txBaudCounter: int
    var txActive: bool
    var txBusy: nat
    var txData: nat
    // what has been sent on to the command port and the console
    var cmdBuf: seq<nat>
    var conBuf: seq<nat>
    ghost var log: seq<nat>

    ghost predicate Valid()
      reads this
    {
      config.Valid()
    }

    ghost function TxState(): Tx
      reads this
    {
      Tx(txActive, txBaudCounter, txData, txBusy)
    }

    ghost function RxState(): Rx
      reads this
    {
      Rx(rxActive, rxBaudCounter, rxBusy, rxData, rxChangeCtr, lastTx, log)
    }

    constructor (setup: nat)
      ensures Valid() && config == Setup(setup) && !txActive && AtRest(TxState(), RxState())
    {
      config := Setup(setup);
      rxBaudCounter, rxActive, rxBusy, rxData, rxChangeCtr, lastTx := 0, false, 0, 0, 0, true;
      txBaudCounter, txActive, txBusy, txData := 0, false, 0, 0;
      cmdBuf, conBuf, log := [], [], [];
    }

    /** `received`, but for the sockets: the upper bit says which stream the character is for. */
    method Received(ch: Byte)
      requires Valid()
      modifies this`cmdBuf, this`conBuf, this`log
      ensures Valid() && log == old(log) + [ch]
      ensures ch >= 0x80 ==> cmdBuf == old(cmdBuf) + [ch - 0x80] && conBuf == old(conBuf)
      ensures ch < 0x80 ==> cmdBuf == old(cmdBuf) && conBuf == old(conBuf) + [ch]
    {
      log := log + [ch];
      if ch / 0x80 % 2 == 1 {
        cmdBuf := cmdBuf + [ch % 0x80];
      } else {
        conBuf := conBuf + [ch % 0x80];
      }
    }

    method Event(line: bool)
      requires Valid()
      modifies this`rxBaudCounter, this`rxActive, this`rxBusy, this`rxData, this`cmdBuf, this`conBuf, this`log
      ensures Valid() && RxState() == RxEvent(config, old(RxState()), line)
    {
      if rxBusy >= Pow2(config.Length - 1) {
        rxActive := false;
        Received(Character(config, rxData));
      } else {
        rxBusy := 2 * rxBusy + 1;
        rxData := PushTop(line, rxData);
      }
      rxBaudCounter := config.baud - 1;
    }

    method TickReceive(line: bool)
      requires Valid()
      modifies this`rxBaudCounter, this`rxActive, this`rxBusy, this`rxData, this`rxChangeCtr, this`lastTx
      modifies this`cmdBuf, this`conBuf, this`log
      ensures Valid() && RxState() == RxTick(config, old(RxState()), line)
    {
      if !line && lastTx {
        rxChangeCtr := 0;
      } else {
        rxChangeCtr := rxChangeCtr + 1;
      }
      lastTx := line;

      if !rxActive {
        if !line {
          rxActive := true;
          rxBaudCounter := config.baud + config.baud / 2 - 1;
          rxBaudCounter := rxBaudCounter - rxChangeCtr;
          rxBusy, rxData := 0, 0;
        }
      } else if rxBaudCounter <= 0 {
        Event(line);
      } else {
        rxBaudCounter := rxBaudCounter - 1;
      }
    }

    method TickTransmit(next: Option<Byte>) returns (output: bool)
      requires Valid()
      modifies this`txBaudCounter, this`txActive, this`txBusy, this`txData
      ensures (TxState(), output) == TxTick(config, old(TxState()), next)
    {
      output := true;
      if !txActive {
        if next.Some? {
          txData := Frame(config, next.value);
          txBusy := Pow2(config.Length + 1) - 1;
          txActive := true;
          output := false;
          txBaudCounter := config.baud - 1;
        }
      } else if txBaudCounter <= 0 {
        txData := txData / 2;
        txBusy := txBusy / 2;
        if txBusy == 0 {
          txActive := false;
        } else {
          txBaudCounter := config.baud - 1;
        }
        output := txData % 2 == 1;
      } else {
        txBaudCounter := txBaudCounter - 1;
        output := txData % 2 == 1;
      }
    }

    /** `tick`; `next` is the byte the function of that name would return. */
    method Tick(line: bool, next: Option<Byte>) returns (output: bool)
      requires Valid()
      modifies this
      ensures Valid() && config == old(config)
      ensures RxState() == RxTick(config, old(RxState()), line)
      ensures (TxState(), output) == TxTick(config, old(TxState()), next)
    {
      TickReceive(line);
      output := TickTransmit(next);
    }
  }
}
