/** How the driver gets the flash out of whatever it was doing, into single-bit command mode. */
module FlashOffline {
  import opened Words
  import opened FlashSim
  import opened FlashBus

  /** A device in quad reading, `count` bits into a selection whose lowest line has been high at every clock. */
  predicate LeavingQuad(f: Flash) {
    && f.mode == Qspi && f.count % 4 == 0 && (f.count > 0 ==> f.ireg % 2 == 1)
    && f.state == (if f.count < 24 then QuadReadIdle else QuadRead)
    && (f.count >= 32 ==> !StaysInRead(f.modeByte))
  }

  /** The same in dual reading. */
  predicate LeavingDual(f: Flash) {
    && f.mode == Dspi && f.count % 2 == 0
    && (f.count >= 2 ==> f.ireg % 2 == 1) && (f.count >= 4 ==> f.ireg / 4 % 2 == 1) && (f.count >= 6 ==> f.ireg / 16 % 2 == 1)
    && f.state == (if f.count < 24 then DualReadIdle else DualRead)
    && (f.count >= 32 ==> !StaysInRead(f.modeByte))
  }

  /** The same in command mode: a reset command is coming in, and then bytes that nobody reads. */
  predicate LeavingSpi(f: Flash) {
    && f.mode == Spi && f.state != QuadReadIdle && f.state != DualReadIdle
    && (f.count < 8 ==> f.ireg == Pow2(f.count) - 1 && (f.flags.dpd ==> f.state == Idle))
    && (f.count >= 8 ==> f.state == Idle)
  }

  predicate Leaving(f: Flash) {
    && Sized(f) && !f.halted && f.lastSck
    && ((LeavingQuad(f) && !f.flags.dpd) || (LeavingDual(f) && !f.flags.dpd) || LeavingSpi(f))
  }

  lemma LowHexDigit(q: nat, r: nat)
    requires r < 16
    ensures (q * 16 + r) / 16 == q && (q * 16 + r) % 2 == r % 2
  {
  }

  lemma LowPair(q: nat, r: nat)
    requires r < 4
    ensures (q * 4 + r) / 4 == q && (q * 4 + r) % 2 == r % 2
  {
  }

  lemma HighNibble(x: nat)
    ensures x % 256 / 16 % 16 == x / 16 % 16
  {
  }

  /** A mode byte whose high nibble is odd is no request to stay. */
  lemma OddNibbleLeaves(x: nat)
    requires x / 16 % 2 == 1
    ensures !StaysInRead(x % 256)
  {
    HighNibble(x);
    assert x / 16 % 16 % 2 == x / 16 % 2;
  }

  lemma QuadModeByte(ireg: nat, d: nat)
    requires ireg % 2 == 1
    ensures !StaysInRead((ireg * 16 + d % 16) % 256)
  {
    LowHexDigit(ireg, d % 16);
    OddNibbleLeaves(ireg * 16 + d % 16);
  }

  lemma DualModeByte(ireg: nat, d: nat)
    requires ireg / 4 % 2 == 1
    ensures !StaysInRead((ireg * 4 + d % 4) % 256)
  {
    PairsShift(ireg, d);
    OddNibbleLeaves(ireg * 4 + d % 4);
  }

  /** Memory and page buffer are as before, and so are the flags where nothing was timed. */
  predicate Undisturbed(f: Flash, g: Flash) {
    g.mem == f.mem && g.pmem == f.pmem && g.regs == f.regs && (f.flags.timer == 0 ==> g.flags == f.flags)
  }

  /** A step of a device in quad reading. */
  ghost predicate StepsInQuad(f: Flash, g: Flash) {
    Leaving(g) && LeavingQuad(g) && !g.flags.dpd && g.count == f.count + 4 && Undisturbed(f, g)
  }

  lemma QuadStep(f: Flash, d: nat) returns (g: Flash)
    requires Leaving(f) && LeavingQuad(f) && !f.flags.dpd && d % 2 == 1
    ensures g == Pulse(f, d) && StepsInQuad(f, g)
  {
    if f.count < 24 {
      g := QuadIdleStep(f, d);
    } else if f.count % 8 == 0 {
      g := QuadShiftStep(f, d);
    } else {
      g := QuadByteStep(f, d);
    }
  }

  lemma QuadIdleStep(f: Flash, d: nat) returns (g: Flash)
    requires Leaving(f) && LeavingQuad(f) && !f.flags.dpd && f.count < 24 && d % 2 == 1
    ensures g == Pulse(f, d) && StepsInQuad(f, g)
  {
    var x := QuadBits(f, d);
    PulseResumes(f, d, x, QuadRead);
    g := Later(if x.count == 24 then x.(addr := x.ireg % MEMBYTES, state := QuadRead, oreg := 0) else x.(oreg := 0), 1);
  }

  lemma QuadShiftStep(f: Flash, d: nat) returns (g: Flash)
    requires Leaving(f) && LeavingQuad(f) && !f.flags.dpd && f.count >= 24 && f.count % 8 == 0 && d % 2 == 1
    ensures g == Pulse(f, d) && StepsInQuad(f, g)
  {
    OddNibble(f.ireg, d);
    PulseShifts(f, d);
    g := Later(Shifted(f, d), 2);
  }

  /** A byte of a read changes little. */
  lemma ReadGoesOn(x: Flash)
    requires Sized(x) && (x.state == QuadRead || x.state == DualRead || x.state == QuadReadCmd) && x.count > 8
    ensures var g := Complete(x);
            && g.state == x.state && g.mode == x.mode && g.flags == x.flags && g.count == x.count && g.ireg == x.ireg
            && g.halted == x.halted && g.lastSck == x.lastSck && g.pmem == x.pmem && g.regs == x.regs
            && g.modeByte == if x.count == (if x.state == QuadReadCmd then 40 else 32) then x.ireg % 256 else x.modeByte
  {
  }

  /** What a pulse that completes a byte of a read leaves. */
  ghost predicate ReadOn(x: Flash, g: Flash) {
    && g.state == x.state && g.mode == x.mode && g.flags == Waited(x.flags, 1) && g.count == x.count && g.ireg == x.ireg
    && !g.halted && g.lastSck && g.mem == x.mem && g.pmem == x.pmem && g.regs == x.regs
    && g.modeByte == if x.count == (if x.state == QuadReadCmd then 40 else 32) then x.ireg % 256 else x.modeByte
  }

  lemma ReadingPulse(f: Flash, d: nat, x: Flash) returns (g: Flash)
    requires Sized(f) && Listening(f) && (f.state == QuadRead || f.state == DualRead || f.state == QuadReadCmd)
    requires x == Shifted(Later(f, 1), d) && x.count % 8 == 0 && x.count > 8
    ensures g == Pulse(f, d) && ReadOn(x, g)
  {
    ReadGoesOn(x);
    PulseCompletes(f, d, x);
    g := Finished(Complete(x));
  }

  lemma QuadByteStep(f: Flash, d: nat) returns (g: Flash)
    requires Leaving(f) && LeavingQuad(f) && !f.flags.dpd && f.count >= 24 && f.count % 8 != 0 && d % 2 == 1
    ensures g == Pulse(f, d) && StepsInQuad(f, g)
  {
    var x := QuadBits(f, d);
    g := ReadingPulse(f, d, x);
    QuadByteLands(f, x, g);
  }

  lemma QuadBits(f: Flash, d: nat) returns (x: Flash)
    requires f.mode == Qspi && f.count % 4 == 0 && (f.count > 0 ==> f.ireg % 2 == 1) && d % 2 == 1
    ensures x == Shifted(Later(f, 1), d) && x == Later(f, 1).(ireg := x.ireg, count := f.count + 4)
    ensures x.ireg % 2 == 1 && (f.count > 0 ==> !StaysInRead(x.ireg % 256)) && (f.count % 8 != 0 ==> x.count % 8 == 0)
  {
    x := Shifted(Later(f, 1), d);
    OddNibble(f.ireg, d);
    if f.count > 0 {
      QuadModeByte(f.ireg, d);
    }
  }

  lemma QuadByteLands(f: Flash, x: Flash, g: Flash)
    requires Leaving(f) && LeavingQuad(f) && !f.flags.dpd && f.count >= 28 && ReadOn(x, g)
    requires x == Later(f, 1).(ireg := x.ireg, count := f.count + 4) && x.ireg % 2 == 1 && !StaysInRead(x.ireg % 256)
    ensures StepsInQuad(f, g)
  {
  }

  lemma OddNibble(ireg: nat, d: nat)
    requires d % 2 == 1
    ensures (ireg * 16 + d % 16) % 2 == 1
  {
    LowHexDigit(ireg, d % 16);
    assert d % 16 % 2 == d % 2;
  }

  lemma OddPair(ireg: nat, d: nat)
    requires d % 2 == 1
    ensures (ireg * 4 + d % 4) % 2 == 1 && (ireg * 4 + d % 4) / 4 == ireg
  {
    LowPair(ireg, d % 4);
    assert d % 4 % 2 == d % 2;
  }

  lemma PairsShift(ireg: nat, d: nat)
    ensures (ireg * 4 + d % 4) / 16 == ireg / 4
  {
    LowPair(ireg, d % 4);
    assert (ireg * 4 + d % 4) / 16 == (ireg * 4 + d % 4) / 4 / 4;
  }

  /** A step of a device in dual reading. */
  ghost predicate StepsInDual(f: Flash, g: Flash) {
    Leaving(g) && LeavingDual(g) && !g.flags.dpd && g.count == f.count + 2 && Undisturbed(f, g)
  }

  predicate OddPairs(x: nat) {
    x % 2 == 1 && x / 4 % 2 == 1 && x / 16 % 2 == 1
  }

  lemma DualStep(f: Flash, d: nat) returns (g: Flash)
    requires Leaving(f) && LeavingDual(f) && !f.flags.dpd && d % 2 == 1
    ensures g == Pulse(f, d) && StepsInDual(f, g)
  {
    if f.count < 24 {
      g := DualIdleStep(f, d);
    } else if f.count % 8 == 6 {
      g := DualByteStep(f, d);
    } else {
      g := DualShiftStep(f, d);
    }
  }

  lemma DualIdleStep(f: Flash, d: nat) returns (g: Flash)
    requires Leaving(f) && LeavingDual(f) && !f.flags.dpd && f.count < 24 && d % 2 == 1
    ensures g == Pulse(f, d) && StepsInDual(f, g)
  {
    var x := DualBits(f, d);
    PulseResumes(f, d, x, DualRead);
    g := Later(if x.count == 24 then x.(addr := x.ireg % MEMBYTES, state := DualRead, oreg := 0) else x.(oreg := 0), 1);
    DualIdleLands(f, x, g);
  }

  lemma DualIdleLands(f: Flash, x: Flash, g: Flash)
    requires Leaving(f) && LeavingDual(f) && !f.flags.dpd && f.count < 24
    requires x == Later(f, 1).(ireg := x.ireg, count := f.count + 2)
    requires x.ireg % 2 == 1 && (f.count >= 2 ==> x.ireg / 4 % 2 == 1) && (f.count >= 4 ==> x.ireg / 16 % 2 == 1)
    requires g == Later(if x.count == 24 then x.(addr := x.ireg % MEMBYTES, state := DualRead, oreg := 0) else x.(oreg := 0), 1)
    ensures StepsInDual(f, g)
  {
    WaitedTwice(f.flags, 1, 1);
    assert LeavingDual(g);
  }

  lemma DualShiftStep(f: Flash, d: nat) returns (g: Flash)
    requires Leaving(f) && LeavingDual(f) && !f.flags.dpd && f.count >= 24 && f.count % 8 != 6 && d % 2 == 1
    ensures g == Pulse(f, d) && StepsInDual(f, g)
  {
    OddPair(f.ireg, d);
    PairsShift(f.ireg, d);
    PulseShifts(f, d);
    g := Later(Shifted(f, d), 2);
  }

  lemma DualByteStep(f: Flash, d: nat) returns (g: Flash)
    requires Leaving(f) && LeavingDual(f) && !f.flags.dpd && f.count >= 24 && f.count % 8 == 6 && d % 2 == 1
    ensures g == Pulse(f, d) && StepsInDual(f, g)
  {
    var x := DualBits(f, d);
    g := ReadingPulse(f, d, x);
    DualByteLands(f, x, g);
  }

  lemma DualBits(f: Flash, d: nat) returns (x: Flash)
    requires LeavingDual(f) && d % 2 == 1
    ensures x == Shifted(Later(f, 1), d) && x == Later(f, 1).(ireg := x.ireg, count := f.count + 2)
    ensures x.ireg % 2 == 1 && (f.count >= 2 ==> x.ireg / 4 % 2 == 1) && (f.count >= 4 ==> x.ireg / 16 % 2 == 1)
    ensures f.count >= 4 ==> !StaysInRead(x.ireg % 256)
    ensures f.count % 8 == 6 ==> x.count % 8 == 0
  {
    x := Shifted(Later(f, 1), d);
    OddPair(f.ireg, d);
    PairsShift(f.ireg, d);
    if f.count >= 4 {
      DualModeByte(f.ireg, d);
    }
  }

  lemma DualByteLands(f: Flash, x: Flash, g: Flash)
    requires Leaving(f) && LeavingDual(f) && !f.flags.dpd && f.count >= 30 && ReadOn(x, g)
    requires x == Later(f, 1).(ireg := x.ireg, count := f.count + 2) && OddPairs(x.ireg) && !StaysInRead(x.ireg % 256)
    ensures StepsInDual(f, g)
  {
    assert g.count == f.count + 2 && g.ireg == x.ireg && g.state == f.state && g.mode == f.mode;
    assert LeavingDual(g);
  }

  /** Eight high bits are the reset command. */
  lemma SpiStep(f: Flash, d: nat) returns (g: Flash)
    requires Leaving(f) && LeavingSpi(f) && d % 2 == 1
    ensures g == Pulse(f, d) && Leaving(g) && LeavingSpi(g) && g.count == f.count + 1 && Undisturbed(f, g)
  {
    if f.count == 7 {
      g := ResetCommand(f, d);
    } else if f.count % 8 != 7 {
      PulseShifts(f, d);
      g := Later(Shifted(f, d), 2);
    } else {
      var x := Shifted(Later(f, 1), d);
      PulseCompletes(f, d, x);
      g := Finished(Complete(x));
    }
  }

  lemma ResetCommand(f: Flash, d: nat) returns (g: Flash)
    requires Leaving(f) && LeavingSpi(f) && d % 2 == 1 && f.count == 7
    ensures g == Pulse(f, d) && Leaving(g) && LeavingSpi(g) && g.count == 8 && Undisturbed(f, g)
  {
    var x := Shifted(Later(f, 1), d);
    assert x.ireg == 255 by {
      Pow2Add(3, 4);
      Pow2Words();
      assert Pow2(3) == 8;
    }
    PulseCompletes(f, d, x);
    g := Finished(Complete(x));
  }

  lemma {:induction false} StepsLeave(f: Flash, dats: seq<nat>) returns (g: Flash)
    requires Leaving(f) && forall k | 0 <= k < |dats| :: dats[k] % 2 == 1
    ensures g == Pulses(f, dats) && Leaving(g) && g.count >= f.count + |dats| && Undisturbed(f, g)
    decreases |dats|
  {
    if dats == [] {
      g := f;
    } else {
      var d, m := dats[0], f;
      if LeavingQuad(f) {
        m := QuadStep(f, d);
      } else if LeavingDual(f) {
        m := DualStep(f, d);
      } else {
        m := SpiStep(f, d);
      }
      g := StepsLeave(m, dats[1..]);
    }
  }

  /** Nothing is under way: no program, erase or status write waits for the end of a selection. */
  predicate AtRest(f: Flash) {
    && Sized(f) && !f.halted && f.mode == Spi && f.count == 0 && f.ireg == 0 && f.lastSck
    && (f.state == Idle || f.state == ReadStatus || f.state == QuadRead || f.state == DualRead)
    && (f.state == QuadRead || f.state == DualRead ==> !StaysInRead(f.modeByte))
  }

  /** `take_offline`: a deselection, six reset bytes, and another deselection. */
  function TakenOffline(f: Flash, dats: seq<nat>): (g: Flash)
    requires Sized(f)
    ensures Sized(g)
  {
    End(Pulses(End(f), dats))
  }

  lemma EndLeaves(f: Flash)
    requires Sound(f) && !f.halted
    ensures Leaving(End(f)) && End(f).count == 0
  {
    assert Pow2(0) == 1;
  }

  lemma EndOfLeaving(f: Flash)
    requires Leaving(f) && f.count >= 32
    ensures AtRest(End(f)) && Undisturbed(f, End(f))
  {
  }

  /**
   * From every sound state, whether in command mode or reading in two or four lines at a time, and
   * whatever the other three lines carry, 48 clocks with the lowest line high between two
   * deselections leave the device in single-bit mode with nothing pending. What was pending before
   * was carried out by the first deselection; nothing else changes the contents.
   */
  lemma TakesOffline(f: Flash, dats: seq<nat>)
    requires Sound(f) && !f.halted && |dats| == 48 && forall k | 0 <= k < |dats| :: dats[k] % 2 == 1
    ensures AtRest(TakenOffline(f, dats)) && Undisturbed(End(f), TakenOffline(f, dats))
  {
    EndLeaves(f);
    var g := StepsLeave(End(f), dats);
    EndOfLeaving(g);
  }
}
