/** What the driver does to the flash through its configuration port, each command clocked into the device. */
module FlashPort {
  import opened Words
  import opened FlashSim
  import opened FlashBus
  import opened FlashOffline

  /** No write under way, none to be expected, and not powered down. */
  predicate Calm(fl: Flags) {
    fl.timer == 0 && !fl.wip && !fl.dpd
  }

  /** In command mode, with nothing under way. */
  ghost predicate Offline(f: Flash) {
    Sound(f) && AtRest(f) && Calm(f.flags)
  }

  /** Ready to be read like a memory. */
  ghost predicate Online(f: Flash) {
    && Sound(f) && !f.halted && f.lastSck && Calm(f.flags)
    && f.state == QuadReadIdle && f.mode == Qspi && f.count == 0 && f.ireg == 0
  }

  /** Contents and flags are the same, and the device listens. */
  predicate Same(f: Flash, g: Flash) {
    g.mem == f.mem && g.flags == f.flags && g.regs == f.regs && !g.halted && g.lastSck
  }

  /** A device in the middle of a command in single-bit mode, `n` bytes in. */
  predicate InCommand(f: Flash, s: State, n: nat) {
    f.state == s && f.mode == Spi && f.count == 8 * n && n > 0 && !f.halted && f.lastSck && Sized(f) && Calm(f.flags)
  }

  // ----- bytes

  /** The end of a selection. */
  method Finish(f: Flash) returns (g: Flash)
    requires Sized(f) && !f.halted
    ensures Sized(g) && g == Deselect(Tick(f))
  {
    g := End(f);
  }

  /** A command that starts no write and no quad or dual read, in command mode. */
  method Command(f: Flash, c: nat, other: nat) returns (g: Flash)
    requires Offline(f) && c < 256 && IsKnown(c) && c != 0x81 && c != 0xab && c != 0xb9
    ensures Sized(g) && g.state == CommandState(c, f.flags, f.state) && g.mode == CommandMode(c, f.flags, f.mode)
    ensures g.flags == CommandFlags(c, f.flags) && g.oreg == CommandOut(c, f)
    ensures g.count == 8 && g.ireg == c && g.mem == f.mem && g.pmem == f.pmem && !g.halted && g.lastSck
    ensures g.addr == f.addr && g.modeByte == f.modeByte && g.regs == f.regs
  {
    ByteArrives(f, c, other);
    CommandTakes(f, c);
    g := SpiByte(f, c, other);
  }

  lemma CommandTakes(f: Flash, c: nat)
    requires Offline(f) && c < 256 && IsKnown(c) && c != 0x81 && c != 0xab && c != 0xb9
    ensures Sent(f, c) == f.(state := CommandState(c, f.flags, f.state), mode := CommandMode(c, f.flags, f.mode),
                             flags := CommandFlags(c, f.flags), oreg := CommandOut(c, f), count := 8, ireg := c)
  {
    assert Later(f, 15) == f;
    assert c % 256 == c;
  }

  /** A byte after a command. */
  method Send(f: Flash, b: nat, other: nat, s: State, n: nat) returns (g: Flash)
    requires InCommand(f, s, n) && b < 256 && s != WriteStatus && s != ClearStatus && s != Release
    requires s == SectorErase && n == 3 ==> EraseBase(f.ireg * 256 + b) < 0x40_0000
    requires s != QuadPageProgram && s != QuadReadIdle && s != DualReadIdle
    ensures InCommand(g, s, n + 1) && Same(f, g) && g.ireg == f.ireg * 256 + b
    ensures var x := f.(ireg := f.ireg * 256 + b, count := f.count + 8);
            g.pmem == DataPage(x) && g.addr == DataAddr(x) && g.oreg == DataOut(x) && g.modeByte == DataModeByte(x)
  {
    ByteArrives(f, b, other);
    ByteTakes(f, b, s, n);
    g := SpiByte(f, b, other);
  }

  lemma ByteTakes(f: Flash, b: nat, s: State, n: nat)
    requires InCommand(f, s, n) && b < 256 && s != WriteStatus && s != ClearStatus && s != Release
    requires s == SectorErase && n == 3 ==> EraseBase(f.ireg * 256 + b) < 0x40_0000
    requires s != QuadPageProgram && s != QuadReadIdle && s != DualReadIdle
    ensures var x := f.(ireg := f.ireg * 256 + b, count := f.count + 8);
            Sent(f, b) == x.(pmem := DataPage(x), addr := DataAddr(x), oreg := DataOut(x), modeByte := DataModeByte(x))
  {
    var x := f.(ireg := f.ireg * 256 + b, count := f.count + 8);
    assert Later(f, 15) == f;
    SentIs(f, b, x);
    DataTakes(x);
  }

  lemma DataTakes(x: Flash)
    requires Sized(x) && x.count > 8 && !x.halted && x.lastSck && x.flags.timer == 0
    requires x.state != WriteStatus && x.state != ClearStatus && x.state != QuadPageProgram
    requires x.state == SectorErase && x.count == 32 ==> EraseBase(x.ireg) < 0x40_0000
    ensures Finished(Complete(x))
         == x.(pmem := DataPage(x), addr := DataAddr(x), oreg := DataOut(x), modeByte := DataModeByte(x))
  {
    assert Complete(x) == Data(x);
  }

  // ----- in quad mode

  /** A device in a quad read. */
  predicate InQuadRead(f: Flash, s: State) {
    && f.state == s && f.mode == Qspi && f.count % 4 == 0 && f.count >= 8 && !f.halted && f.lastSck
    && Sized(f) && Calm(f.flags) && (s == QuadReadCmd || s == QuadRead)
  }

  /** What a clock of a quad read does: a nibble in, and a byte fetched when it is time. */
  predicate Pulsed(f: Flash, d: nat, g: Flash) {
    && InQuadRead(g, f.state) && Same(f, g) && g.pmem == f.pmem && g.count == f.count + 4 && g.ireg == f.ireg * 16 + d % 16
    && g.modeByte == (if g.count == (if f.state == QuadReadCmd then 40 else 32) then g.ireg % 256 else f.modeByte)
    && (f.state == QuadRead && g.count % 8 == 0 && g.count >= 48 ==> Fetched(f, g))
    && (f.state == QuadRead && (g.count % 8 != 0 || g.count < 48) ==> g.addr == f.addr)
    && (g.count % 8 != 0 ==> g.oreg == f.oreg)
  }

  predicate Fetched(f: Flash, g: Flash) {
    f.addr < |f.mem| ==> g.oreg == f.mem[f.addr] && g.addr == f.addr + 1
  }

  method QuadPulse(f: Flash, d: nat) returns (g: Flash)
    requires InQuadRead(f, f.state)
    ensures Pulsed(f, d, g)
  {
    g := Pulse(f, d);
    ghost var h := PulseInQuad(f, d);
  }

  lemma PulseInQuad(f: Flash, d: nat) returns (g: Flash)
    requires InQuadRead(f, f.state)
    ensures g == Pulse(f, d) && Pulsed(f, d, g)
  {
    if f.count % 8 == 0 {
      g := HalfByte(f, d);
    } else {
      g := WholeByte(f, d);
    }
  }

  lemma HalfByte(f: Flash, d: nat) returns (g: Flash)
    requires InQuadRead(f, f.state) && f.count % 8 == 0
    ensures g == Pulse(f, d) && Pulsed(f, d, g)
  {
    g := QuadNibble(f, d);
    PulseShifts(f, d);
    HalfPulsed(f, d, g);
  }

  lemma HalfPulsed(f: Flash, d: nat, g: Flash)
    requires InQuadRead(f, f.state) && f.count % 8 == 0
    requires g == f.(ireg := f.ireg * 16 + d % 16, count := f.count + 4)
    ensures Pulsed(f, d, g)
  {
    FourMore(f.count);
  }

  lemma WholeByte(f: Flash, d: nat) returns (g: Flash)
    requires InQuadRead(f, f.state) && f.count % 8 != 0
    ensures g == Pulse(f, d) && Pulsed(f, d, g)
  {
    var x := QuadNibble(f, d);
    PulseCompletes(f, d, x);
    DataTakes(x);
    g := x.(pmem := DataPage(x), addr := DataAddr(x), oreg := DataOut(x), modeByte := DataModeByte(x));
    WholePulsed(f, d, x, g);
  }

  lemma WholePulsed(f: Flash, d: nat, x: Flash, g: Flash)
    requires InQuadRead(f, f.state) && f.count % 8 != 0
    requires x == f.(ireg := f.ireg * 16 + d % 16, count := f.count + 4)
    requires g == x.(pmem := DataPage(x), addr := DataAddr(x), oreg := DataOut(x), modeByte := DataModeByte(x))
    ensures Pulsed(f, d, g)
  {
    QuadData(x);
    FourMore(f.count);
  }

  lemma FourMore(n: nat)
    requires n % 4 == 0
    ensures (n + 4) % 8 == (if n % 8 == 0 then 4 else 0) && (n + 4) % 4 == 0
  {
  }

  lemma QuadNibble(f: Flash, d: nat) returns (x: Flash)
    requires InQuadRead(f, f.state)
    ensures x == Shifted(Later(f, 1), d) && x == f.(ireg := f.ireg * 16 + d % 16, count := f.count + 4)
    ensures x.count % 8 == if f.count % 8 == 0 then 4 else 0
  {
    x := f.(ireg := f.ireg * 16 + d % 16, count := f.count + 4);
    FourMore(f.count);
  }

  lemma QuadData(x: Flash)
    requires Sized(x) && (x.state == QuadReadCmd || x.state == QuadRead) && !x.flags.wip
    ensures DataPage(x) == x.pmem
    ensures DataModeByte(x) == if x.count == (if x.state == QuadReadCmd then 40 else 32) then x.ireg % 256 else x.modeByte
    ensures x.state == QuadRead ==> DataAddr(x) == if x.count >= 48 then x.addr + 1 else x.addr
    ensures x.state == QuadRead && x.count >= 48 && x.addr < |x.mem| ==> DataOut(x) == x.mem[x.addr]
  {
  }

  /** A clock of a device that takes an address without a command. */
  method AddressPulse(f: Flash, d: nat) returns (g: Flash)
    requires Sized(f) && f.state == QuadReadIdle && f.mode == Qspi && f.count < 24 && !f.halted && f.lastSck && Calm(f.flags)
    ensures Sized(g) && g.mode == Qspi && g.count == f.count + 4 && g.ireg == f.ireg * 16 + d % 16
    ensures Same(f, g) && g.pmem == f.pmem && g.modeByte == f.modeByte
    ensures g.count == 24 ==> g.state == QuadRead && g.addr == g.ireg % MEMBYTES
    ensures g.count != 24 ==> g.state == QuadReadIdle
  {
    var x := Shifted(Later(f, 1), d);
    PulseResumes(f, d, x, QuadRead);
    g := Pulse(f, d);
  }

  /** A byte at quad speed. */
  method SendQuad(f: Flash, b: nat) returns (g: Flash)
    requires InQuadRead(f, f.state) && f.count % 8 == 0 && b < 256
    ensures InQuadRead(g, f.state) && Same(f, g) && g.pmem == f.pmem && g.count == f.count + 8
    ensures g.modeByte == if g.count == (if f.state == QuadReadCmd then 40 else 32) then b else f.modeByte
    ensures f.state == QuadRead && g.count >= 48 ==> Fetched(f, g)
    ensures f.state == QuadRead && g.count < 48 ==> g.addr == f.addr
  {
    var m := QuadPulse(f, b / 16);
    g := QuadPulse(m, b % 16);
    TwoNibbles(f.ireg, b);
  }

  lemma TwoNibbles(ireg: nat, b: nat)
    requires b < 256
    ensures ((ireg * 16 + b / 16 % 16) * 16 + b % 16 % 16) % 256 == b
  {
  }

  // ----- getting the device out of reading, and back

  lemma {:induction false} HighLines(b: nat, n: nat, other: nat)
    requires b == Pow2(n) - 1
    ensures forall k | 0 <= k < n :: BitLines(b, n, other)[k] % 2 == 1
    decreases n
  {
    if n > 0 {
      assert b / 2 == Pow2(n - 1) - 1 && b % 2 == 1;
      HighLines(b / 2, n - 1, other);
      LowLine(b, other);
    }
  }

  lemma ResetLines(other: nat)
    ensures forall k | 0 <= k < BITS :: BitLines(0xff, BITS, other)[k] % 2 == 1
  {
    Pow2Words();
    HighLines(0xff, BITS, other);
  }

  lemma EndChangesNothing(f: Flash)
    requires Online(f) || Offline(f)
    ensures Leaving(End(f)) && End(f).count == 0 && Undisturbed(f, End(f))
  {
    EndLeaves(f);
  }

  /** `take_offline` */
  method TakeOffline(f: Flash, other: nat) returns (g: Flash)
    requires Online(f) || Offline(f)
    ensures Offline(g) && g.mem == f.mem && g.flags == f.flags
  {
    EndChangesNothing(f);
    g := End(f);
    var i := 0;
    while i < 6
      invariant 0 <= i <= 6 && Leaving(g) && g.count >= 8 * i && Undisturbed(f, g)
    {
      ghost var h := ResetByte(g, other);
      g := SpiByte(g, 0xff, other);
      i := i + 1;
    }
    EndOfLeaving(g);
    g := End(g);
    RestIsSound(g);
  }

  lemma ResetByte(f: Flash, other: nat) returns (g: Flash)
    requires Leaving(f)
    ensures g == SpiByte(f, 0xff, other)
    ensures Leaving(g) && g.count >= f.count + 8 && Undisturbed(f, g)
  {
    ResetLines(other);
    g := StepsLeave(f, BitLines(0xff, BITS, other));
  }

  lemma RestIsSound(f: Flash)
    requires AtRest(f) && Calm(f.flags) && Bytes(f.mem) && Bytes(f.pmem) && f.regs.other % 2 == 0
    ensures Offline(f)
  {
  }

  /** Clocks of a quad read that nobody listens to. */
  method IdlePulses(f: Flash, n: nat, d: nat) returns (g: Flash)
    requires InQuadRead(f, QuadReadCmd) && f.count >= 40
    ensures InQuadRead(g, QuadReadCmd) && Same(f, g) && g.pmem == f.pmem && g.modeByte == f.modeByte && g.count == f.count + 4 * n
  {
    g := f;
    var i := 0;
    while i < n
      invariant 0 <= i <= n && InQuadRead(g, QuadReadCmd) && Same(f, g) && g.pmem == f.pmem
      invariant g.modeByte == f.modeByte && g.count == f.count + 4 * i
    {
      g := QuadPulse(g, d);
      i := i + 1;
    }
  }

  /** A quad read command with address 0 and a mode byte that asks for the next read to need none. */
  method StartQuadRead(f: Flash, other: nat) returns (g: Flash)
    requires Offline(f)
    ensures InQuadRead(g, QuadReadCmd) && Same(f, g) && g.pmem == f.pmem && g.modeByte == 0xa0 && g.count == 40
  {
    g := Command(f, 0xeb, other);
    var i := 0;
    while i < 3
      invariant 0 <= i <= 3 && InQuadRead(g, QuadReadCmd) && Same(f, g) && g.pmem == f.pmem && g.count == 8 + 8 * i
    {
      g := SendQuad(g, 0);
      i := i + 1;
    }
    g := SendQuad(g, 0xa0);
  }

  /** `restore_quadio`: after this the device can be read like a memory. */
  method PlaceOnline(f: Flash, other: nat) returns (g: Flash)
    requires Offline(f)
    ensures Online(g) && g.mem == f.mem && g.flags == f.flags
  {
    g := Finish(f);
    RestKept(f, g);
    g := StartQuadRead(g, other);
    g := IdlePulses(g, NDUMMY - 2, other);
    g := IdlePulses(g, 2, other);
    g := IdlePulses(g, 8, 2 * other);
    ghost var h := g;
    g := Finish(g);
    OnlineAgain(h, g);
  }

  lemma RestKept(f: Flash, g: Flash)
    requires Offline(f) && g == Deselect(Tick(f))
    ensures Offline(g) && g.mem == f.mem && g.flags == f.flags && g.pmem == f.pmem && g.regs == f.regs
  {
  }

  lemma OnlineAgain(f: Flash, g: Flash)
    requires InQuadRead(f, f.state) && Bytes(f.mem) && Bytes(f.pmem) && f.regs.other % 2 == 0
    requires f.modeByte == 0xa0 && g == Deselect(Tick(f))
    ensures Online(g) && g.mem == f.mem && g.flags == f.flags && g.pmem == f.pmem && g.regs == f.regs
  {
    assert StaysInRead(0xa0);
  }

  // ----- reading

  /** The next nibble of an address, of which the nibbles above `16 * q` are in. */
  method AddNibble(f: Flash, off: nat, p: nat, q: nat) returns (g: Flash)
    requires Sized(f) && f.state == QuadReadIdle && f.mode == Qspi && f.count < 24 && !f.halted && f.lastSck && Calm(f.flags)
    requires p == 16 * q && q in {1, 0x10, 0x100, 0x1000, 0x1_0000, 0x10_0000} && f.ireg == off / p
    ensures Sized(g) && g.mode == Qspi && g.count == f.count + 4 && g.ireg == off / q
    ensures Same(f, g) && g.pmem == f.pmem && g.modeByte == f.modeByte
    ensures g.count == 24 ==> g.state == QuadRead && g.addr == g.ireg % MEMBYTES
    ensures g.count != 24 ==> g.state == QuadReadIdle
  {
    NibbleMore(off, p, q);
    g := AddressPulse(f, off / q % 16);
  }

  method SendAddressNibbles(f: Flash, off: nat) returns (g: Flash)
    requires Online(f) && off < MEMBYTES
    ensures InQuadRead(g, QuadRead) && Same(f, g) && g.pmem == f.pmem && g.count == 24 && g.addr == off
  {
    g := AddNibble(f, off, 0x100_0000, 0x10_0000);
    g := AddNibble(g, off, 0x10_0000, 0x1_0000);
    g := AddNibble(g, off, 0x1_0000, 0x1000);
    g := AddNibble(g, off, 0x1000, 0x100);
    g := AddNibble(g, off, 0x100, 0x10);
    g := AddNibble(g, off, 0x10, 1);
  }

  lemma NibbleMore(off: nat, p: nat, q: nat)
    requires p == 16 * q && q in {1, 0x10, 0x100, 0x1000, 0x1_0000, 0x10_0000}
    ensures off / p * 16 + off / q % 16 % 16 == off / q
  {
    assert off / p == off / q / 16;
  }

  /** In the bytes of a read that began with the device as `f`. */
  predicate InBytes(f: Flash, g: Flash) {
    && InQuadRead(g, QuadRead) && Same(f, g) && g.pmem == f.pmem && g.modeByte == 0xa0
    && g.count % 8 == 0 && g.count >= 32
  }

  /** The address, the mode byte and the dummy clocks of a read; the first byte is fetched. */
  method StartRead(f: Flash, off: nat, other: nat) returns (g: Flash)
    requires Online(f) && off < MEMBYTES
    ensures InBytes(f, g) && g.count == 48 && g.oreg == f.mem[off] && g.addr == off + 1
  {
    g := SendAddressNibbles(f, off);
    g := SendQuad(g, 0xa0);
    var i := 0;
    while i < (NDUMMY - 2) / 2
      invariant 0 <= i <= 2 && InBytes(f, g)
      invariant g.count == 32 + 8 * i && (if i < 2 then g.addr == off else g.oreg == f.mem[off] && g.addr == off + 1)
    {
      g := SendQuad(g, other % 256);
      i := i + 1;
    }
  }

  /** One byte taken, and the next one fetched if there is one. */
  method NextByte(f: Flash, m: Flash, other: nat) returns (g: Flash)
    requires InBytes(f, m) && m.count >= 48
    ensures InBytes(f, g) && g.count >= 48 && (m.addr < |f.mem| ==> g.oreg == f.mem[m.addr] && g.addr == m.addr + 1)
  {
    g := SendQuad(m, other % 256);
  }

  /** A read of the flash as memory: the bytes at `off` and after. */
  method ReadBytes(f: Flash, off: nat, n: nat, other: nat) returns (g: Flash, bytes: seq<nat>)
    requires Online(f) && off + n <= MEMBYTES
    ensures Online(g) && g.mem == f.mem && g.flags == f.flags && bytes == f.mem[off..off + n]
  {
    bytes := [];
    g := f;
    if n == 0 {
      return;
    }
    g := StartRead(f, off, other);
    while |bytes| < n
      invariant |bytes| <= n && bytes == f.mem[off..off + |bytes|]
      invariant InBytes(f, g) && g.count >= 48
      invariant |bytes| < n ==> g.oreg == f.mem[off + |bytes|] && g.addr == off + |bytes| + 1
    {
      bytes := bytes + [g.oreg];
      g := NextByte(f, g, other);
    }
    ghost var h := g;
    g := Finish(g);
    OnlineAgain(h, g);
  }
}
