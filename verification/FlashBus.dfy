/** The flash as its driver reaches it: bytes clocked in at single-bit or quad speed, between deselections. */
module FlashBus {
  import opened Words
  import opened FlashSim

  /** One clock pulse, with the data lines as given: a falling edge and a rising one. */
  function Pulse(f: Flash, dat: nat): (g: Flash)
    requires Sized(f)
    ensures Sized(g)
  {
    Call(Call(f, false, false, dat), false, true, dat)
  }

  function Pulses(f: Flash, dats: seq<nat>): (g: Flash)
    requires Sized(f)
    ensures Sized(g)
    decreases |dats|
  {
    if dats == [] then f else Pulses(Pulse(f, dats[0]), dats[1..])
  }

  function End(f: Flash): (g: Flash)
    requires Sized(f)
    ensures Sized(g)
  {
    Call(f, true, true, 0)
  }

  /** The lines for the low `n` bits of a byte, most significant first; the three other lines carry `other`. */
  function BitLines(b: nat, n: nat, other: nat): (d: seq<nat>)
    ensures |d| == n
    decreases n
  {
    if n == 0 then [] else BitLines(b / 2, n - 1, other) + [b % 2 + 2 * other]
  }

  const BITS: nat := 8

  function SpiByte(f: Flash, b: nat, other: nat): (g: Flash)
    requires Sized(f)
    ensures Sized(g)
  {
    Pulses(f, BitLines(b, BITS, other))
  }

  // ----- time

  /** The flags `n` clocks later. */
  function Waited(fl: Flags, n: nat): Flags {
    if fl.timer == 0 then fl
    else if n < fl.timer then fl.(timer := fl.timer - n)
    else Flags(false, false, false, 0)
  }

  lemma WaitedOnce(fl: Flags)
    ensures Elapsed(fl) == Waited(fl, 1)
  {
  }

  lemma WaitedTwice(fl: Flags, m: nat, n: nat)
    ensures Waited(Waited(fl, m), n) == Waited(fl, m + n)
  {
  }

  function Later(f: Flash, n: nat): Flash {
    f.(flags := Waited(f.flags, n))
  }

  // ----- bits into bytes

  predicate Listening(f: Flash) {
    !f.halted && f.lastSck && f.state != QuadReadIdle && f.state != DualReadIdle
  }

  /** A pulse that does not complete a byte only shifts. */
  lemma PulseShifts(f: Flash, dat: nat)
    requires Sized(f) && Listening(f) && Shifted(f, dat).count % 8 != 0
    ensures Pulse(f, dat) == Later(Shifted(f, dat), 2)
  {
    WaitedOnce(f.flags);
    WaitedTwice(f.flags, 1, 1);
    WaitedOnce(Waited(f.flags, 1));
  }

  /** A pulse of a device that is reading without a command. */
  lemma PulseResumes(f: Flash, dat: nat, x: Flash, next: State)
    requires Sized(f) && !f.halted && f.lastSck && !f.flags.dpd && x == Shifted(Later(f, 1), dat)
    requires (f.state == QuadReadIdle && f.mode == Qspi && next == QuadRead)
          || (f.state == DualReadIdle && f.mode == Dspi && next == DualRead)
    ensures Pulse(f, dat)
         == Later(if x.count == 24 then x.(addr := x.ireg % MEMBYTES, state := next, oreg := 0) else x.(oreg := 0), 1)
  {
    WaitedOnce(f.flags);
    WaitedOnce(x.flags);
  }

  /** What a completed byte does. */
  function Complete(f: Flash): (g: Flash)
    requires Sized(f)
    ensures Sized(g) && g.mem == f.mem
  {
    if f.count == 8 then Decode(f) else Data(f)
  }

  /** The rising edge that follows, unless the simulator has stopped. */
  function Finished(f: Flash): (g: Flash)
    ensures Sized(f) ==> Sized(g)
  {
    if f.halted then f.(lastSck := false) else Later(f, 1).(lastSck := true)
  }

  lemma PulseCompletes(f: Flash, dat: nat, x: Flash)
    requires Sized(f) && Listening(f) && x == Shifted(Later(f, 1), dat) && x.count % 8 == 0 && x.count > 0
    ensures Sized(x) && Pulse(f, dat) == Finished(Complete(x))
  {
    WaitedOnce(f.flags);
    WaitedOnce(Complete(x).flags);
  }

  function Gathered(ireg: nat, dats: seq<nat>): nat
    decreases |dats|
  {
    if dats == [] then ireg else Gathered(ireg * 2 + dats[0] % 2, dats[1..])
  }

  lemma {:induction false} PulsesShift(f: Flash, dats: seq<nat>)
    requires Sized(f) && Listening(f) && f.mode == Spi && f.count % 8 + |dats| <= 7
    ensures Pulses(f, dats)
         == Later(f.(ireg := Gathered(f.ireg, dats), count := f.count + |dats|), 2 * |dats|)
    decreases |dats|
  {
    if dats == [] {
      assert Waited(f.flags, 0) == f.flags;
    } else {
      PulseShifts(f, dats[0]);
      var g := Pulse(f, dats[0]);
      PulsesShift(g, dats[1..]);
      WaitedTwice(f.flags, 2, 2 * |dats[1..]|);
    }
  }

  lemma {:induction false} PulsesAppend(f: Flash, x: seq<nat>, y: seq<nat>)
    requires Sized(f)
    ensures Pulses(f, x + y) == Pulses(Pulses(f, x), y)
    decreases |x|
  {
    if x == [] {
      assert x + y == y;
    } else {
      assert (x + y)[1..] == x[1..] + y;
      PulsesAppend(Pulse(f, x[0]), x[1..], y);
    }
  }

  /** The device with one more byte in, and what that does. */
  function Arrive(f: Flash, b: nat): (g: Flash)
    requires Sized(f)
    ensures Sized(g) && g.mem == f.mem
  {
    Complete(f.(ireg := f.ireg * 256 + b, count := f.count + 8))
  }

  lemma {:induction false} GatheredLast(ireg: nat, dats: seq<nat>, d: nat)
    ensures Gathered(ireg, dats + [d]) == Gathered(ireg, dats) * 2 + d % 2
    decreases |dats|
  {
    if dats == [] {
      assert [d][1..] == [] && [] + [d] == [d];
    } else {
      assert (dats + [d])[1..] == dats[1..] + [d];
      GatheredLast(ireg * 2 + dats[0] % 2, dats[1..], d);
    }
  }

  lemma {:induction false} LinesGather(ireg: nat, b: nat, n: nat, other: nat)
    requires b < Pow2(n)
    ensures Gathered(ireg, BitLines(b, n, other)) == ireg * Pow2(n) + b
    decreases n
  {
    if n > 0 {
      LinesGather(ireg, b / 2, n - 1, other);
      GatheredLast(ireg, BitLines(b / 2, n - 1, other), b % 2 + 2 * other);
      OneMoreBit(ireg, Pow2(n - 1), b, other);
    }
  }

  lemma OneMoreBit(ireg: nat, p: nat, b: nat, other: nat)
    ensures (ireg * p + b / 2) * 2 + (b % 2 + 2 * other) % 2 == ireg * (2 * p) + b
  {
    assert (b % 2 + 2 * other) % 2 == b % 2;
    assert ireg * (2 * p) == 2 * (ireg * p);
  }

  lemma PulsesLast(f: Flash, dats: seq<nat>, d: nat)
    requires Sized(f)
    ensures Pulses(f, dats + [d]) == Pulse(Pulses(f, dats), d)
  {
    PulsesAppend(f, dats, [d]);
    assert [d][1..] == [];
  }

  /** All the bits of a byte but the last. */
  lemma SevenBits(f: Flash, b: nat, n: nat, other: nat)
    requires Sized(f) && Listening(f) && f.mode == Spi && f.count % 8 == 0 && b < 256 && n == 7
    ensures Pulses(f, BitLines(b / 2, n, other)) == Later(f.(ireg := f.ireg * 128 + b / 2, count := f.count + 7), 14)
  {
    SevenGather(f.ireg, b / 2, n, other);
    SevenShift(f, BitLines(b / 2, n, other), f.ireg * 128 + b / 2);
  }

  lemma SevenShift(f: Flash, dats: seq<nat>, v: nat)
    requires Sized(f) && Listening(f) && f.mode == Spi && f.count % 8 == 0 && |dats| == 7 && Gathered(f.ireg, dats) == v
    ensures Pulses(f, dats) == Later(f.(ireg := v, count := f.count + 7), 14)
  {
    PulsesShift(f, dats);
  }

  lemma SevenGather(ireg: nat, b: nat, n: nat, other: nat)
    requires b < 128 && n == 7
    ensures Gathered(ireg, BitLines(b, n, other)) == ireg * 128 + b
  {
    assert Pow2(7) == 128 by { assert Pow2(3) == 8; Pow2Add(3, 4); Pow2Words(); }
    LinesGather(ireg, b, n, other);
  }

  /** The device once a byte has been sent bit by bit: it acts on the 15th of the byte's 16 calls. */
  function Sent(f: Flash, b: nat): (g: Flash)
    requires Sized(f)
    ensures Sized(g)
  {
    Finished(Arrive(Later(f, 15), b))
  }

  lemma LastShift(f: Flash, b: nat, m: Flash, d: nat) returns (x: Flash)
    requires f.mode == Spi && f.count % 8 == 0 && d % 2 == b % 2
    requires m == Later(f.(ireg := f.ireg * 128 + b / 2, count := f.count + 7), 14)
    ensures x == Shifted(Later(m, 1), d) && x == Later(f, 15).(ireg := f.ireg * 256 + b, count := f.count + 8)
    ensures x.count % 8 == 0
  {
    x := Shifted(Later(m, 1), d);
    WaitedTwice(f.flags, 14, 1);
    ShiftOneBit(f.ireg, b, d);
  }

  lemma LastBit(f: Flash, b: nat, m: Flash, d: nat, x: Flash)
    requires Sized(f) && Listening(m) && Sized(m) && x == Shifted(Later(m, 1), d) && x.count % 8 == 0 && x.count > 0
    requires x == Later(f, 15).(ireg := f.ireg * 256 + b, count := f.count + 8)
    ensures Pulse(m, d) == Sent(f, b)
  {
    SentIs(f, b, x);
    PulseCompletes(m, d, x);
  }

  lemma SentIs(f: Flash, b: nat, x: Flash)
    requires Sized(f) && x == Later(f, 15).(ireg := f.ireg * 256 + b, count := f.count + 8)
    ensures Sent(f, b) == Finished(Complete(x))
  {
    ArriveIs(Later(f, 15), b, x);
  }

  lemma ArriveIs(l: Flash, b: nat, x: Flash)
    requires Sized(l) && x == l.(ireg := l.ireg * 256 + b, count := l.count + 8)
    ensures Arrive(l, b) == Complete(x)
  {
  }

  lemma LowLine(b: nat, other: nat)
    ensures (b % 2 + 2 * other) % 2 == b % 2
  {
  }

  lemma ShiftOneBit(ireg: nat, b: nat, d: nat)
    requires d % 2 == b % 2
    ensures (ireg * 128 + b / 2) * 2 + d % 2 == ireg * 256 + b
  {
  }

  lemma SpiByteSplits(f: Flash, b: nat, other: nat) returns (m: Flash, d: nat)
    requires Sized(f) && Listening(f) && f.mode == Spi && f.count % 8 == 0 && b < 256
    ensures m == Later(f.(ireg := f.ireg * 128 + b / 2, count := f.count + 7), 14)
    ensures Sized(m) && d % 2 == b % 2 && SpiByte(f, b, other) == Pulse(m, d)
  {
    var n: nat := BITS - 1;
    var dats := BitLines(b / 2, n, other);
    d := b % 2 + 2 * other;
    LowLine(b, other);
    SevenBits(f, b, n, other);
    m := Pulses(f, dats);
    assert BitLines(b, n + 1, other) == dats + [d];
    PulsesLast(f, dats, d);
  }

  /** A byte sent bit by bit arrives as that byte, whatever the other lines carry. */
  lemma ByteArrives(f: Flash, b: nat, other: nat)
    requires Sized(f) && Listening(f) && f.mode == Spi && f.count % 8 == 0 && b < 256
    ensures SpiByte(f, b, other) == Sent(f, b)
  {
    var m, d := SpiByteSplits(f, b, other);
    var x := LastShift(f, b, m, d);
    LastBit(f, b, m, d, x);
  }
}
