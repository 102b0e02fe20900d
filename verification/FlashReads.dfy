/** The reads of the simulated flash, each sent clock by clock: by one line, by two, by four, and of its identification. */
module FlashReads {
  import opened FlashSim
  import opened FlashBus
  import opened FlashPort
  import opened FlashWrite

  // ----- a byte in, by as many lines as the mode has

  predicate ReadsIn(s: State, m: Mode) {
    || (m == Spi && (s == SlowRead || s == FastRead || s == ReadId || s == ReadConfig))
    || (m == Dspi && (s == DualReadCmd || s == DualRead))
    || (m == Qspi && (s == QuadReadCmd || s == QuadRead))
  }

  /** A device `n` bytes into a read. */
  predicate Reading(f: Flash, s: State, m: Mode, n: nat) {
    && f.state == s && f.mode == m && ReadsIn(s, m) && f.count == 8 * n && n > 0
    && !f.halted && f.lastSck && Sized(f) && Calm(f.flags)
  }

  /** The device with a byte more in its register, before it acts on it. */
  function With(f: Flash, b: nat): Flash {
    f.(ireg := f.ireg * 256 + b, count := f.count + 8)
  }

  /** What a byte sent during a read does. */
  predicate Taken(f: Flash, b: nat, g: Flash) {
    && Same(f, g) && g.state == f.state && g.mode == f.mode && g.pmem == f.pmem && Sized(g)
    && g.count == f.count + 8 && g.ireg == f.ireg * 256 + b
    && g.addr == DataAddr(With(f, b)) && g.oreg == DataOut(With(f, b)) && g.modeByte == DataModeByte(With(f, b))
  }

  /** Some of a byte's bits, in a mode of several lines: they are shifted in. */
  lemma PartShifts(f: Flash, d: nat) returns (g: Flash)
    requires Sized(f) && Listening(f) && Calm(f.flags) && f.mode != Spi && (f.count + Bits(f.mode)) % 8 != 0
    ensures g == Pulse(f, d)
    ensures g == f.(ireg := ShiftedIn(f.mode, f.ireg, d), count := f.count + Bits(f.mode))
  {
    PulseShifts(f, d);
    g := f.(ireg := ShiftedIn(f.mode, f.ireg, d), count := f.count + Bits(f.mode));
    assert Later(Shifted(f, d), 2) == g;
  }

  /** The last of a byte's bits. */
  lemma LastPart(f: Flash, d: nat, x: Flash) returns (g: Flash)
    requires Sized(f) && Listening(f) && Calm(f.flags) && f.mode != Spi && ReadsIn(f.state, f.mode)
    requires x == f.(ireg := ShiftedIn(f.mode, f.ireg, d), count := f.count + Bits(f.mode)) && x.count % 8 == 0 && x.count > 8
    ensures Sized(x) && g == Pulse(f, d)
    ensures g == x.(pmem := DataPage(x), addr := DataAddr(x), oreg := DataOut(x), modeByte := DataModeByte(x))
  {
    assert x == Shifted(Later(f, 1), d);
    PulseCompletes(f, d, x);
    DataTakes(x);
    g := Finished(Complete(x));
  }

  /** The four pairs of bits of a byte, in the order they are sent. */
  lemma PairsJoin(ireg: nat, b: nat, p: nat, q: nat, r: nat)
    requires b < 256 && p == ireg * 4 + b / 64 % 4 && q == p * 4 + b / 16 % 4 && r == q * 4 + b / 4 % 4
    ensures r * 4 + b % 4 == ireg * 256 + b
  {
    assert p == ireg * 4 + b / 64;
    assert b / 16 == b / 64 * 4 + b / 16 % 4 by { assert b / 16 / 4 == b / 64; }
    assert q == ireg * 16 + b / 16;
    assert b / 4 == b / 16 * 4 + b / 4 % 4 by { assert b / 4 / 4 == b / 16; }
  }

  lemma NibblesJoin(ireg: nat, b: nat)
    requires b < 256
    ensures (ireg * 16 + b / 16 % 16) * 16 + b % 16 == ireg * 256 + b
  {
  }

  lemma WithIsTaken(f: Flash, b: nat, g: Flash)
    requires Sized(f) && ReadsIn(f.state, f.mode) && !f.halted && f.lastSck
    requires var x := With(f, b);
             g == x.(pmem := DataPage(x), addr := DataAddr(x), oreg := DataOut(x), modeByte := DataModeByte(x))
    ensures Taken(f, b, g)
  {
  }

  lemma PairShifts(f: Flash, d: nat, n: nat, k: nat) returns (g: Flash)
    requires Sized(f) && Listening(f) && Calm(f.flags) && f.mode == Dspi && f.count == 8 * n + 2 * k && k < 3
    ensures g == Pulse(f, d) && g == f.(ireg := f.ireg * 4 + d % 4, count := 8 * n + 2 * k + 2)
  {
    assert (f.count + 2) % 8 == 2 * k + 2;
    g := PartShifts(f, d);
  }

  /** The first three pairs of bits of a byte. */
  lemma ThreePairs(f: Flash, b: nat, s: State, n: nat) returns (g: Flash)
    requires Reading(f, s, Dspi, n) && b < 256
    ensures g == Pulse(Pulse(Pulse(f, b / 64), b / 16), b / 4) && g == f.(ireg := g.ireg, count := f.count + 6)
    ensures g.ireg * 4 + b % 4 == f.ireg * 256 + b
  {
    var p := PairShifts(f, b / 64, n, 0);
    var q := PairShifts(p, b / 16, n, 1);
    g := PairShifts(q, b / 4, n, 2);
    PairsJoin(f.ireg, b, p.ireg, q.ireg, g.ireg);
  }

  /** The bits that complete a byte of `f`, of which those before are in `r`. */
  lemma LastLines(f: Flash, b: nat, s: State, m: Mode, n: nat, r: Flash) returns (g: Flash)
    requires Reading(f, s, m, n) && b < 256 && m != Spi
    requires r == f.(ireg := r.ireg, count := f.count + 8 - Bits(m)) && ShiftedIn(m, r.ireg, b) == f.ireg * 256 + b
    ensures g == Pulse(r, b) && Reading(g, s, m, n + 1) && Taken(f, b, g)
  {
    g := LastPart(r, b, With(f, b));
    WithIsTaken(f, b, g);
  }

  method SendDual(f: Flash, b: nat, s: State, n: nat) returns (g: Flash)
    requires Reading(f, s, Dspi, n) && b < 256
    ensures Reading(g, s, Dspi, n + 1) && Taken(f, b, g)
  {
    ghost var r := ThreePairs(f, b, s, n);
    ghost var h := LastLines(f, b, s, Dspi, n, r);
    g := Pulse(Pulse(Pulse(Pulse(f, b / 64), b / 16), b / 4), b);
  }

  method SendNibbles(f: Flash, b: nat, s: State, n: nat) returns (g: Flash)
    requires Reading(f, s, Qspi, n) && b < 256
    ensures Reading(g, s, Qspi, n + 1) && Taken(f, b, g)
  {
    ghost var p := PartShifts(f, b / 16);
    NibblesJoin(f.ireg, b);
    ghost var h := LastLines(f, b, s, Qspi, n, p);
    g := Pulse(Pulse(f, b / 16), b);
  }

  method SendBits(f: Flash, b: nat, other: nat, s: State, n: nat) returns (g: Flash)
    requires Reading(f, s, Spi, n) && b < 256
    ensures Reading(g, s, Spi, n + 1) && Taken(f, b, g)
  {
    g := Send(f, b, other, s, n);
    assert DataPage(With(f, b)) == f.pmem;
  }

  method SendByte(f: Flash, b: nat, other: nat, s: State, m: Mode, n: nat) returns (g: Flash)
    requires Reading(f, s, m, n) && b < 256
    ensures Reading(g, s, m, n + 1) && Taken(f, b, g)
  {
    match m
    case Spi => g := SendBits(f, b, other, s, n);
    case Dspi => g := SendDual(f, b, s, n);
    case Qspi => g := SendNibbles(f, b, s, n);
  }

  // ----- an address, and the bytes from there on

  /** The state, the lines and the length of the head of a read: command, address and what follows it. */
  function StateOf(c: nat): State {
    match c
    case 0x03 => SlowRead
    case 0x0b => FastRead
    case 0xbb => DualReadCmd
    case _ => QuadReadCmd
  }

  function ModeOf(c: nat): Mode {
    match c
    case 0xbb => Dspi
    case 0xeb => Qspi
    case _ => Spi
  }

  /** Bytes from the command to the clock that fetches the first byte of the answer. */
  function Head(c: nat): nat {
    match c
    case 0x03 => 4
    case 0xeb => 8
    case _ => 5
  }

  predicate IsRead(c: nat) {
    c == 0x03 || c == 0x0b || c == 0xbb || c == 0xeb
  }

  /** In a read of `f` begun by `c`, `n` bytes in, with the next byte to fetch that at `a`. */
  predicate HasRead(f: Flash, g: Flash, c: nat, n: nat, a: nat) {
    Reading(g, StateOf(c), ModeOf(c), n) && Same(f, g) && g.pmem == f.pmem && g.addr == a
  }

  method StartCommand(f: Flash, c: nat, other: nat) returns (g: Flash)
    requires Offline(f) && IsRead(c)
    ensures HasRead(f, g, c, 1, f.addr) && g.ireg == c && g.modeByte == f.modeByte
  {
    g := Command(f, c, other);
  }

  method SendHigh(f: Flash, c: nat, off: nat, other: nat) returns (g: Flash)
    requires IsRead(c) && HasRead(f, f, c, 1, f.addr) && off < MEMBYTES
    ensures HasRead(f, g, c, 3, f.addr) && g.modeByte == f.modeByte
    ensures g.ireg == (f.ireg * 256 + off / 0x1_0000 % 256) * 256 + off / 0x100 % 256
  {
    g := SendByte(f, off / 0x1_0000 % 256, other, StateOf(c), ModeOf(c), 1);
    g := SendByte(g, off / 0x100 % 256, other, StateOf(c), ModeOf(c), 2);
  }

  lemma AddressIsIn(c: nat, off: nat, i: nat)
    requires off < MEMBYTES && i == (c * 256 + off / 0x1_0000 % 256) * 256 + off / 0x100 % 256
    ensures (i * 256 + off % 256) % MEMBYTES == off
  {
    AddressBytes(c, off, c * 256 + off / 0x1_0000 % 256, i);
  }

  /** The whole address; a slow read fetches with it. */
  method SendReadAddress(f: Flash, c: nat, off: nat, other: nat) returns (g: Flash)
    requires IsRead(c) && HasRead(f, f, c, 1, f.addr) && off < MEMBYTES
    ensures HasRead(f, g, c, 4, if c == 0x03 then off + 1 else off) && g.modeByte == f.modeByte
    ensures c == 0x03 ==> g.oreg == f.mem[off]
  {
    var h := SendHigh(f, c, off, other);
    AddressIsIn(f.ireg, off, h.ireg);
    LastOfAddress(h, c, off, h.ireg * 256 + off % 256);
    g := SendByte(h, off % 256, other, StateOf(c), ModeOf(c), 3);
  }

  lemma LastOfAddress(f: Flash, c: nat, off: nat, ireg: nat)
    requires IsRead(c) && Reading(f, StateOf(c), ModeOf(c), 3) && off < MEMBYTES && ireg % MEMBYTES == off
    ensures var x := f.(ireg := ireg, count := f.count + 8);
            && DataAddr(x) == (if c == 0x03 then off + 1 else off) && DataModeByte(x) == f.modeByte
            && (c == 0x03 ==> DataOut(x) == f.mem[off])
  {
  }

  /** A byte after the address: it fetches once the head is over. */
  lemma FetchesAfterHead(x: Flash, c: nat, n: nat)
    requires IsRead(c) && x.state == StateOf(c) && !x.flags.wip && x.count == 8 * n && n >= 5
    ensures DataAddr(x) == if n >= Head(c) then x.addr + 1 else x.addr
    ensures n >= Head(c) && x.addr < |x.mem| ==> DataOut(x) == x.mem[x.addr]
    ensures DataModeByte(x) == if n == 5 && (c == 0xbb || c == 0xeb) then x.ireg % 256 else x.modeByte
  {
  }

  method SendAfterAddress(f: Flash, m: Flash, b: nat, c: nat, n: nat, other: nat) returns (g: Flash)
    requires IsRead(c) && HasRead(f, m, c, n, m.addr) && n >= 4 && b < 256
    ensures HasRead(f, g, c, n + 1, if n + 1 >= Head(c) then m.addr + 1 else m.addr)
    ensures n + 1 >= Head(c) && m.addr < |f.mem| ==> g.oreg == f.mem[m.addr]
    ensures g.modeByte == if n == 4 && (c == 0xbb || c == 0xeb) then b else m.modeByte
  {
    FetchesAfterHead(With(m, b), c, n + 1);
    LowByte(m.ireg, b);
    g := SendByte(m, b, other, StateOf(c), ModeOf(c), n);
  }

  /** Command, address, and the mode byte or dummy bytes: the first byte is fetched. */
  method StartReading(f: Flash, c: nat, off: nat, modeByte: nat, other: nat) returns (g: Flash)
    requires Offline(f) && IsRead(c) && off < MEMBYTES && modeByte < 256
    ensures HasRead(f, g, c, Head(c), off + 1) && g.oreg == f.mem[off]
    ensures c == 0xbb || c == 0xeb ==> g.modeByte == modeByte
  {
    g := StartCommand(f, c, other);
    g := SendReadAddress(g, c, off, other);
    if c != 0x03 {
      g := SendAfterAddress(f, g, modeByte, c, 4, other);
      if c == 0xeb {
        g := SendAfterAddress(f, g, other % 256, c, 5, other);
        g := SendAfterAddress(f, g, other % 256, c, 6, other);
        g := SendAfterAddress(f, g, other % 256, c, 7, other);
      }
    }
  }

  /** `k` bytes of the answer are out and the next is fetched, if there is one. */
  predicate ReadsAt(f: Flash, g: Flash, c: nat, off: nat, k: nat) {
    HasRead(f, g, c, Head(c) + k, off + k + 1) && (off + k < |f.mem| ==> g.oreg == f.mem[off + k])
  }

  method NextRead(f: Flash, m: Flash, c: nat, off: nat, k: nat, other: nat) returns (g: Flash)
    requires IsRead(c) && ReadsAt(f, m, c, off, k)
    ensures ReadsAt(f, g, c, off, k + 1) && g.modeByte == m.modeByte
  {
    g := SendAfterAddress(f, m, other % 256, c, Head(c) + k, other);
  }

  /**
   * Any of the four reads gives, whatever its address and length, the bytes stored from the address on. Of the
   * contents and the flags it changes nothing.
   */
  method Read(f: Flash, c: nat, off: nat, n: nat, modeByte: nat, other: nat) returns (g: Flash, bytes: seq<nat>)
    requires Offline(f) && IsRead(c) && off + n <= MEMBYTES && modeByte < 256
    ensures bytes == f.mem[off..off + n]
    ensures Same(f, g) && g.pmem == f.pmem
    ensures n > 0 ==> g.count == 8 * (Head(c) + n) && (c == 0xbb || c == 0xeb ==> g.modeByte == modeByte)
  {
    bytes := [];
    g := f;
    if n == 0 {
      return;
    }
    g := StartReading(f, c, off, modeByte, other);
    var k := 0;
    while k < n
      invariant 0 <= k <= n && |bytes| == k && bytes == f.mem[off..off + k]
      invariant ReadsAt(f, g, c, off, k) && (c == 0xbb || c == 0xeb ==> g.modeByte == modeByte)
    {
      bytes := bytes + [g.oreg];
      g := NextRead(f, g, c, off, k, other);
      k := k + 1;
    }
  }

  // ----- a dual read that continues

  /** A device waiting for the address of a dual read, `n` bytes of it in. */
  predicate Resuming(f: Flash, n: nat) {
    && f.state == DualReadIdle && f.mode == Dspi && f.count == 8 * n && n < 3
    && !f.halted && f.lastSck && Sized(f) && Calm(f.flags)
  }

  lemma ResumesPart(f: Flash, d: nat) returns (g: Flash)
    requires Sized(f) && f.state == DualReadIdle && f.mode == Dspi && !f.halted && f.lastSck && Calm(f.flags)
    ensures g == Pulse(f, d)
    ensures var x := f.(ireg := f.ireg * 4 + d % 4, count := f.count + 2, oreg := 0);
            g == if x.count == 24 then x.(addr := x.ireg % MEMBYTES, state := DualRead) else x
  {
    var x := Shifted(Later(f, 1), d);
    PulseResumes(f, d, x, DualRead);
    g := Pulse(f, d);
  }

  /** Three pairs of bits of an address byte. */
  lemma ResumesPairs(f: Flash, b: nat, n: nat) returns (g: Flash)
    requires Resuming(f, n) && b < 256
    ensures g == Pulse(Pulse(Pulse(f, b / 64), b / 16), b / 4)
    ensures g == f.(ireg := g.ireg, count := f.count + 6, oreg := 0) && g.ireg * 4 + b % 4 == f.ireg * 256 + b
  {
    var p := ResumesPart(f, b / 64);
    var q := ResumesPart(p, b / 16);
    g := ResumesPart(q, b / 4);
    PairsJoin(f.ireg, b, p.ireg, q.ireg, g.ireg);
  }

  method SendResumed(f: Flash, b: nat, n: nat) returns (g: Flash)
    requires Resuming(f, n) && b < 256
    ensures Same(f, g) && g.pmem == f.pmem && g.modeByte == f.modeByte && g.ireg == f.ireg * 256 + b
    ensures if n < 2 then Resuming(g, n + 1) else Reading(g, DualRead, Dspi, 3) && g.addr == g.ireg % MEMBYTES
  {
    ghost var r := ResumesPairs(f, b, n);
    ghost var h := ResumesPart(r, b);
    g := Pulse(Pulse(Pulse(Pulse(f, b / 64), b / 16), b / 4), b);
  }

  /** Left by a dual read whose mode byte asked for it, the device takes the next address without a command. */
  lemma DualGoesOn(f: Flash, g: Flash)
    requires Sized(f) && (f.state == DualReadCmd || f.state == DualRead)
    requires f.mode == Dspi && Calm(f.flags) && !f.halted && f.modeByte == 0xa0 && g == Deselect(Tick(f))
    ensures Resuming(g, 0) && Same(f, g) && g.ireg == 0 && g.modeByte == 0xa0
  {
    assert StaysInRead(0xa0);
  }

  /** A byte of a continued dual read. */
  method NextDual(f: Flash, b: nat, n: nat) returns (g: Flash)
    requires Reading(f, DualRead, Dspi, n) && n >= 3 && b < 256
    ensures Reading(g, DualRead, Dspi, n + 1) && Same(f, g) && g.addr == f.addr + 1
    ensures f.addr < |f.mem| ==> g.oreg == f.mem[f.addr]
    ensures g.modeByte == if n == 3 then b else f.modeByte
  {
    LowByte(f.ireg, b);
    g := SendDual(f, b, DualRead, n);
  }

  /** The address of a continued dual read, and its mode byte, with which the first byte is fetched. */
  method ResumeReading(f: Flash, off: nat, modeByte: nat) returns (g: Flash)
    requires Resuming(f, 0) && f.ireg == 0 && off < MEMBYTES && modeByte < 256
    ensures Reading(g, DualRead, Dspi, 4) && Same(f, g) && g.addr == off + 1 && g.oreg == f.mem[off] && g.modeByte == modeByte
  {
    g := SendResumed(f, off / 0x1_0000 % 256, 0);
    g := SendResumed(g, off / 0x100 % 256, 1);
    AddressIsIn(0, off, g.ireg);
    g := SendResumed(g, off % 256, 2);
    g := NextDual(g, modeByte, 3);
  }

  /** A continued dual read gives the bytes stored from its address on. */
  method ReadOn(f: Flash, off: nat, n: nat, modeByte: nat, other: nat) returns (g: Flash, bytes: seq<nat>)
    requires Resuming(f, 0) && f.ireg == 0 && 0 < n && off + n <= MEMBYTES && modeByte < 256
    ensures bytes == f.mem[off..off + n]
    ensures Reading(g, DualRead, Dspi, n + 4) && Same(f, g) && g.modeByte == modeByte
  {
    bytes := [];
    g := ResumeReading(f, off, modeByte);
    var k := 0;
    while k < n
      invariant 0 <= k <= n && |bytes| == k && bytes == f.mem[off..off + k]
      invariant Reading(g, DualRead, Dspi, k + 4) && Same(f, g) && g.addr == off + k + 1 && g.modeByte == modeByte
      invariant k < n ==> g.oreg == f.mem[off + k]
    {
      bytes := bytes + [g.oreg];
      g := NextDual(g, other % 256, k + 4);
      k := k + 1;
    }
  }

  // ----- registers

  /** The device tells who it is: maker 0x01, then 0x15, 0x23 and 0x40. */
  method ReadIdentification(f: Flash, other: nat) returns (g: Flash, id: seq<nat>)
    requires Offline(f)
    ensures id == [0x01, 0x15, 0x23, 0x40] && Same(f, g) && g.pmem == f.pmem
  {
    var a := Command(f, 0x9f, other);
    var b := Send(a, other % 256, other, ReadId, 1);
    var c := Send(b, other % 256, other, ReadId, 2);
    g := Send(c, other % 256, other, ReadId, 3);
    id := [a.oreg, b.oreg, c.oreg, g.oreg];
  }

  /** The status register, as often as it is asked for: the write enable latch is bit 1, and no write is in progress. */
  method ReadStatusRegister(f: Flash, n: nat, other: nat) returns (g: Flash, bytes: seq<nat>)
    requires Offline(f)
    ensures |bytes| == n + 1 && forall k | 0 <= k <= n :: bytes[k] == f.regs.other + (if f.flags.wel then 2 else 0)
    ensures Same(f, g) && g.pmem == f.pmem
  {
    g := Command(f, 0x05, other);
    bytes := [g.oreg];
    while |bytes| <= n
      invariant 1 <= |bytes| <= n + 1 && InCommand(g, ReadStatus, |bytes|) && Same(f, g) && g.pmem == f.pmem
      invariant forall k | 0 <= k < |bytes| :: bytes[k] == f.regs.other + (if f.flags.wel then 2 else 0)
    {
      g := Send(g, other % 256, other, ReadStatus, |bytes|);
      bytes := bytes + [g.oreg];
    }
  }

  /** The configuration register, as often as it is asked for. */
  method ReadConfiguration(f: Flash, n: nat, other: nat) returns (g: Flash, bytes: seq<nat>)
    requires Offline(f)
    ensures |bytes| == n + 1 && forall k | 0 <= k <= n :: bytes[k] == f.regs.config % 256
    ensures Same(f, g) && g.pmem == f.pmem
  {
    g := Command(f, 0x35, other);
    bytes := [g.oreg];
    while |bytes| <= n
      invariant 1 <= |bytes| <= n + 1 && InCommand(g, ReadConfig, |bytes|) && Same(f, g) && g.pmem == f.pmem
      invariant forall k | 0 <= k < |bytes| :: bytes[k] == f.regs.config % 256
    {
      g := Send(g, other % 256, other, ReadConfig, |bytes|);
      bytes := bytes + [g.oreg];
    }
  }
}
