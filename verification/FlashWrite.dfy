/** The three things the driver does to change the flash: enabling writes, programming a page, erasing a sector. */
module FlashWrite {
  import opened Words
  import opened FlashSim
  import opened FlashBus
  import opened FlashOffline
  import opened FlashPort

  /** Busy with a write, in command mode. */
  ghost predicate Writing(f: Flash, t: nat) {
    Sound(f) && AtRest(f) && f.flags == Flags(true, false, false, t) && t > 0
  }

  /** The write-enable command, on its own between deselections. */
  method EnableWrites(f: Flash, other: nat) returns (g: Flash)
    requires Offline(f)
    ensures Offline(g) && g.mem == f.mem && g.flags == f.flags.(wel := true)
  {
    g := Finish(f);
    RestKept(f, g);
    g := Command(g, 0x06, other);
    ghost var h := g;
    g := Finish(g);
    IdleEnds(h, g);
  }

  /** The write-disable command. */
  method DisableWrites(f: Flash, other: nat) returns (g: Flash)
    requires Offline(f)
    ensures Offline(g) && g.mem == f.mem && g.flags == f.flags.(wel := false)
  {
    g := Command(f, 0x04, other);
    ghost var h := g;
    g := Finish(g);
    IdleEnds(h, g);
  }

  lemma IdleEnds(f: Flash, g: Flash)
    requires Sized(f) && Bytes(f.mem) && Bytes(f.pmem) && f.regs.other % 2 == 0 && f.state == Idle && f.mode == Spi
    requires !f.halted && Calm(f.flags) && g == Deselect(Tick(f))
    ensures Offline(g) && g.mem == f.mem && g.flags == f.flags
  {
  }

  // ----- a page

  /** A page buffer with `d` from `start` on, and blank otherwise. */
  function PageWith(start: nat, d: seq<nat>): (p: seq<nat>)
    requires start + |d| <= PAGE
    ensures |p| == PAGE
  {
    seq(PAGE, k requires 0 <= k < PAGE => if start <= k < start + |d| then d[k - start] else 0xff)
  }

  /** The contents after `d` is programmed at `off`. */
  function ProgramAt(mem: seq<nat>, off: nat, d: seq<nat>): (m: seq<nat>)
    ensures |m| == |mem|
  {
    seq(|mem|, j requires 0 <= j < |mem| => if off <= j < off + |d| then And(mem[j], d[j - off]) else mem[j])
  }

  /** Programming a page buffer that holds `d` programs `d`. */
  lemma PageProgramsData(mem: seq<nat>, off: nat, d: seq<nat>)
    requires Bytes(mem) && off % PAGE + |d| <= PAGE
    ensures Programmed(mem, off / PAGE * PAGE, PageWith(off % PAGE, d)) == ProgramAt(mem, off, d)
  {
    var base := off / PAGE * PAGE;
    var m, p := Programmed(mem, base, PageWith(off % PAGE, d)), ProgramAt(mem, off, d);
    forall j | 0 <= j < |mem|
      ensures m[j] == p[j]
    {
      if base <= j < base + PAGE && !(off <= j < off + |d|) {
        AndBlank(mem[j]);
      }
    }
  }

  lemma PageGrows(start: nat, d: seq<nat>, b: nat)
    requires start + |d| < PAGE
    ensures PageWith(start, d)[start + |d| := b] == PageWith(start, d + [b])
  {
  }

  /** The first two address bytes, after a command. */
  method SendHighAddress(f: Flash, s: State, off: nat, other: nat) returns (g: Flash)
    requires InCommand(f, s, 1) && off < MEMBYTES && (s == PageProgram || s == SectorErase)
    ensures InCommand(g, s, 3) && Same(f, g) && g.pmem == f.pmem
    ensures g.ireg == (f.ireg * 256 + off / 0x1_0000 % 256) * 256 + off / 0x100 % 256
  {
    var high, middle := off / 0x1_0000 % 256, off / 0x100 % 256;
    var h := Send(f, high, other, s, 1);
    g := Send(h, middle, other, s, 2);
  }

  /** Three address bytes, after a command. */
  method SendAddress(f: Flash, s: State, off: nat, other: nat) returns (g: Flash)
    requires InCommand(f, s, 1) && off < MEMBYTES && (s == PageProgram || s == SectorErase)
    requires s == SectorErase ==> off < 0x40_0000
    ensures InCommand(g, s, 4) && Same(f, g)
    ensures s == PageProgram ==> g.addr == off && g.pmem == PageWith(off % PAGE, [])
    ensures s == SectorErase ==> g.addr == off / 0x4000 * 0x4000 && g.pmem == f.pmem
  {
    g := SendHighAddress(f, s, off, other);
    ghost var h := g;
    LastByteTaken(f.ireg, off, h);
    g := Send(g, off % 256, other, s, 3);
  }

  lemma LastByteTaken(c: nat, off: nat, f: Flash)
    requires Sized(f) && off < MEMBYTES && f.ireg == (c * 256 + off / 0x1_0000 % 256) * 256 + off / 0x100 % 256
    requires f.state == PageProgram || f.state == SectorErase
    ensures EraseBase(f.ireg * 256 + off % 256) < 0x40_0000 <==> off < 0x40_0000
    ensures var x := f.(ireg := f.ireg * 256 + off % 256, count := 32);
            && (f.state == PageProgram ==> DataAddr(x) == off && DataPage(x) == PageWith(off % PAGE, []))
            && (f.state == SectorErase ==> DataAddr(x) == off / 0x4000 * 0x4000 && DataPage(x) == f.pmem)
  {
    LastAddressByte(c, off, f.ireg);
    AddressTaken(f, off, f.ireg * 256 + off % 256);
  }

  lemma LastAddressByte(c: nat, off: nat, i: nat)
    requires off < MEMBYTES && i == (c * 256 + off / 0x1_0000 % 256) * 256 + off / 0x100 % 256
    ensures (i * 256 + off % 256) % MEMBYTES == off
    ensures EraseBase(i * 256 + off % 256) == off / 0x4000 * 0x4000
    ensures EraseBase(i * 256 + off % 256) < 0x40_0000 <==> off < 0x40_0000
  {
    AddressBytes(c, off, c * 256 + off / 0x1_0000 % 256, i);
    EraseBelow(off);
  }

  lemma EraseBelow(off: nat)
    ensures off < 0x40_0000 <==> off / 0x4000 * 0x4000 < 0x40_0000
  {
  }

  lemma AddressTaken(f: Flash, off: nat, ireg: nat)
    requires Sized(f) && off < MEMBYTES && ireg % MEMBYTES == off && EraseBase(ireg) == off / 0x4000 * 0x4000
    requires f.state == PageProgram || f.state == SectorErase
    ensures var x := f.(ireg := ireg, count := 32);
            && (f.state == PageProgram ==> DataAddr(x) == off && DataPage(x) == PageWith(off % PAGE, []))
            && (f.state == SectorErase ==> DataAddr(x) == off / 0x4000 * 0x4000 && DataPage(x) == f.pmem)
  {
    var x := f.(ireg := ireg, count := 32);
    if f.state == PageProgram {
      assert DataPage(x) == PageWith(off % PAGE, []);
    }
  }

  lemma AddressBytes(c: nat, off: nat, h: nat, i: nat)
    requires off < MEMBYTES && h == c * 256 + off / 0x1_0000 % 256 && i == h * 256 + off / 0x100 % 256
    ensures (i * 256 + off % 256) % MEMBYTES == off
    ensures EraseBase(i * 256 + off % 256) == off / 0x4000 * 0x4000
  {
    assert off / 0x1_0000 % 256 == off / 0x1_0000;
    assert off / 0x1_0000 * 256 + off / 0x100 % 256 == off / 0x100 by { assert off / 0x1_0000 == off / 0x100 / 256; }
    assert off / 0x100 * 256 + off % 256 == off;
    assert i * 256 + off % 256 == c * MEMBYTES + off;
    DivModUnique(i * 256 + off % 256, MEMBYTES, c, off);
  }

  /** One byte of page data. */
  method SendData(f: Flash, off: nat, d: seq<nat>, b: nat, other: nat, n: nat) returns (g: Flash)
    requires InCommand(f, PageProgram, n) && n >= 4 && b < 256 && off % PAGE + |d| < PAGE
    requires f.pmem == PageWith(off % PAGE, d) && f.addr == PageAddress(off, |d|)
    ensures InCommand(g, PageProgram, n + 1) && Same(f, g)
    ensures g.pmem == PageWith(off % PAGE, d + [b]) && g.addr == PageAddress(off, |d| + 1)
  {
    g := Send(f, b, other, PageProgram, n);
    PageGrows(off % PAGE, d, b);
    DataTaken(f, off, |d|, b, n);
  }

  lemma LowByte(ireg: nat, b: nat)
    requires b < 256
    ensures (ireg * 256 + b) % 256 == b
  {
  }

  lemma DataTaken(f: Flash, off: nat, m: nat, b: nat, n: nat)
    requires Sized(f) && f.state == PageProgram && n >= 4 && f.count == 8 * n && b < 256 && off % PAGE + m < PAGE
    requires f.addr == PageAddress(off, m)
    ensures var x := f.(ireg := f.ireg * 256 + b, count := f.count + 8);
            && DataPage(x) == f.pmem[off % PAGE + m := b] && DataAddr(x) == PageAddress(off, m + 1)
  {
    var base, k := off / PAGE, off % PAGE + m;
    assert k % PAGE == k;
    DivModUnique(f.addr, PAGE, base, k);
    LowByte(f.ireg, b);
    NextInPage(base, k);
  }

  lemma NextInPage(base: nat, k: nat)
    requires k < PAGE
    ensures (base * PAGE + k + 1) % PAGE == (k + 1) % PAGE
  {
    if k + 1 < PAGE {
      DivModUnique(base * PAGE + k + 1, PAGE, base, k + 1);
    } else {
      DivModUnique(base * PAGE + k + 1, PAGE, base + 1, 0);
    }
  }

  /** The address within the page of `off`, `k` bytes on; it wraps around. */
  function PageAddress(off: nat, k: nat): nat {
    off / PAGE * PAGE + (off % PAGE + k) % PAGE
  }

  /** In a page program that began with the contents of `f`, with the data `d` taken. */
  predicate InPage(f: Flash, g: Flash, off: nat, d: seq<nat>)
    requires off % PAGE + |d| <= PAGE
  {
    InCommand(g, PageProgram, 4 + |d|) && Same(f, g) && g.pmem == PageWith(off % PAGE, d) && g.addr == PageAddress(off, |d|)
  }

  /** The data of a page program, byte by byte. */
  method SendPage(f: Flash, m: Flash, off: nat, d: seq<nat>, other: nat) returns (g: Flash)
    requires off % PAGE + |d| <= PAGE && Bytes(d) && InPage(f, m, off, [])
    ensures InPage(f, g, off, d)
  {
    g := m;
    var i := 0;
    while i < |d|
      invariant 0 <= i <= |d| && InPage(f, g, off, d[..i])
    {
      assert d[..i] + [d[i]] == d[..i + 1];
      g := SendData(g, off, d[..i], d[i], other, 4 + i);
      i := i + 1;
    }
    assert d[..i] == d;
  }

  /** A page program: command, address, data, and the deselection that starts it. */
  method Program(f: Flash, off: nat, d: seq<nat>, other: nat) returns (g: Flash)
    requires Offline(f) && f.flags.wel && off < MEMBYTES && off % PAGE + |d| <= PAGE && Bytes(d)
    ensures Writing(g, T_PP) && g.mem == ProgramAt(f.mem, off, d)
  {
    g := Command(f, 0x02, other);
    g := SendAddress(g, PageProgram, off, other);
    AddressInPage(off);
    g := SendPage(f.(flags := g.flags), g, off, d, other);
    ghost var h := g;
    g := Finish(g);
    ProgramEnds(h, off, d, g);
  }

  lemma AddressInPage(off: nat)
    ensures off == PageAddress(off, 0)
  {
  }

  /** Deselection after a program or an erase leaves the device writing, if the contents are bytes. */
  lemma WritingBegins(f: Flash, g: Flash)
    requires Sized(f) && (f.state == PageProgram || f.state == SectorErase) && f.mode == Spi && !f.halted && Calm(f.flags)
    requires Bytes(f.pmem) && Bytes(EndMem(f)) && f.regs.other % 2 == 0 && g == Deselect(Tick(f))
    ensures Writing(g, if f.state == PageProgram then T_PP else T_SE) && g.mem == EndMem(f)
  {
  }

  lemma ProgramEnds(f: Flash, off: nat, d: seq<nat>, g: Flash)
    requires Sized(f) && f.state == PageProgram && f.mode == Spi && !f.halted && Calm(f.flags)
    requires Bytes(f.mem) && Bytes(d) && f.regs.other % 2 == 0 && off % PAGE + |d| <= PAGE
    requires f.pmem == PageWith(off % PAGE, d) && f.addr == PageAddress(off, |d|)
    requires g == Deselect(Tick(f))
    ensures Writing(g, T_PP) && g.mem == ProgramAt(f.mem, off, d)
  {
    PageBase(off / PAGE, (off % PAGE + |d|) % PAGE);
    assert EndMem(f) == Programmed(f.mem, off / PAGE * PAGE, f.pmem);
    PageProgramsData(f.mem, off, d);
    ProgrammedBytes(f.mem, off / PAGE * PAGE, f.pmem);
    WritingBegins(f, g);
  }

  lemma PageBase(base: nat, k: nat)
    requires k < PAGE
    ensures (base * PAGE + k) / PAGE * PAGE == base * PAGE
  {
    DivModUnique(base * PAGE + k, PAGE, base, k);
  }

  // ----- a sector

  /** A sector erase: the simulator lets those through that lie in the first four megabytes. */
  method Erase(f: Flash, base: nat, other: nat) returns (g: Flash)
    requires Offline(f) && f.flags.wel && base < MEMBYTES && base % SECTOR == 0
    ensures Sized(g) && g.halted == (base >= 0x40_0000)
    ensures !g.halted ==> Writing(g, T_SE) && g.mem == Erased(f.mem, base, SECTOR)
  {
    g := Command(f, 0xd8, other);
    if base >= 0x40_0000 {
      g := SendBadAddress(g, base, other);
    } else {
      g := SendAddress(g, SectorErase, base, other);
      ghost var h := g;
      g := Finish(g);
      EraseEnds(h, base, g);
    }
  }

  lemma EraseEnds(f: Flash, base: nat, g: Flash)
    requires Sized(f) && f.state == SectorErase && f.mode == Spi && !f.halted && Calm(f.flags)
    requires Bytes(f.mem) && Bytes(f.pmem) && f.regs.other % 2 == 0
    requires base % SECTOR == 0 && f.addr == base / 0x4000 * 0x4000 && g == Deselect(Tick(f))
    ensures Writing(g, T_SE) && g.mem == Erased(f.mem, base, SECTOR)
  {
    AlignedErase(base);
    assert EndMem(f) == Erased(f.mem, base, SECTOR);
    WritingBegins(f, g);
  }

  lemma AlignedErase(base: nat)
    requires base % SECTOR == 0
    ensures base / 0x4000 * 0x4000 == base && base / SECTOR * SECTOR == base
  {
    var k := base / SECTOR;
    assert base == 0x4000 * (4 * k) + 0;
    DivModUnique(base, 0x4000, 4 * k, 0);
  }

  /** The bytes of an erase address that stops the simulator. */
  method SendBadAddress(f: Flash, off: nat, other: nat) returns (g: Flash)
    requires InCommand(f, SectorErase, 1) && 0x40_0000 <= off < MEMBYTES && off % SECTOR == 0
    ensures Sized(g) && g.halted
  {
    g := SendHighAddress(f, SectorErase, off, other);
    LastAddressByte(f.ireg, off, g.ireg);
    ghost var h := BadAddressHalts(g, off % 256);
    ByteArrives(g, off % 256, other);
    g := SpiByte(g, off % 256, other);
  }

  lemma BadAddressHalts(f: Flash, b: nat) returns (g: Flash)
    requires InCommand(f, SectorErase, 3) && EraseBase(f.ireg * 256 + b) >= 0x40_0000
    ensures g == Sent(f, b) && g.halted
  {
    var x := f.(ireg := f.ireg * 256 + b, count := f.count + 8);
    NoTimeNeeded(f);
    SentIs(f, b, x);
    g := BadData(x);
  }

  lemma NoTimeNeeded(f: Flash)
    requires Calm(f.flags)
    ensures Later(f, 15) == f
  {
  }

  lemma BadData(x: Flash) returns (g: Flash)
    requires Sized(x) && x.state == SectorErase && x.count == 32 && EraseBase(x.ireg) >= 0x40_0000
    ensures g == Finished(Complete(x)) && g.halted
  {
    g := Data(x);
    assert Complete(x) == g;
    g := Finished(g);
  }

  // ----- waiting

  /** A device being asked for its status; the last answer shows a write in progress if there still is one. */
  ghost predicate Polled(f: Flash, mem: seq<nat>) {
    && Sized(f) && f.mem == mem && Bytes(mem) && Bytes(f.pmem) && f.regs.other % 2 == 0
    && f.state == ReadStatus && f.mode == Spi && f.count % 8 == 0 && f.count >= 8 && !f.halted && f.lastSck
    && !f.flags.dpd && (f.flags.wip <==> f.flags.timer > 0) && (f.flags.timer == 0 || !f.flags.wel)
    && (f.flags.wip ==> f.oreg % 2 == 1)
  }

  /** A write in progress, or none: the device may have been left at any moment of it. */
  ghost predicate Settling(f: Flash) {
    && Sound(f) && AtRest(f) && !f.flags.dpd && (f.flags.wip <==> f.flags.timer > 0) && (f.flags.timer == 0 || !f.flags.wel)
  }

  lemma StatusIsOdd(f: Flash)
    requires f.regs.other % 2 == 0
    ensures StatusByte(f) % 2 == 1 <==> f.flags.wip
  {
  }

  lemma WaitedFlags(fl: Flags, n: nat)
    requires !fl.dpd && (fl.wip <==> fl.timer > 0) && (fl.timer == 0 || !fl.wel)
    ensures var g := Waited(fl, n);
            && !g.dpd && (g.wip <==> g.timer > 0) && (g.timer == 0 || !g.wel) && (g.wip ==> fl.wip)
            && (g.wel <==> fl.wel) && (n > 0 && fl.timer > 0 ==> g.timer < fl.timer)
  {
  }

  /** The status command, while a write may be in progress. */
  method AskStatus(f: Flash, other: nat) returns (g: Flash)
    requires Settling(f)
    ensures Polled(g, f.mem) && g.flags.wel == f.flags.wel
  {
    ByteArrives(f, 0x05, other);
    g := SpiByte(f, 0x05, other);
    StatusAsked(f, g);
  }

  lemma StatusAsked(f: Flash, g: Flash)
    requires Settling(f) && g == Sent(f, 0x05)
    ensures Polled(g, f.mem) && g.flags.wel == f.flags.wel
  {
    var x := Later(f, 15).(ireg := f.ireg * 256 + 0x05, count := f.count + 8);
    SentIs(f, 0x05, x);
    WaitedFlags(f.flags, 15);
    WaitedFlags(x.flags, 1);
    StatusIsOdd(x);
  }

  /** One more byte clocked, for one more look at the status. */
  method Poll(f: Flash, other: nat) returns (g: Flash)
    requires Polled(f, f.mem)
    ensures Polled(g, f.mem) && g.flags.wel == f.flags.wel
    ensures g.flags.timer <= f.flags.timer && (f.flags.timer > 0 ==> g.flags.timer < f.flags.timer)
    ensures f.flags.timer == 0 ==> g.oreg % 2 == 0
  {
    ByteArrives(f, 0, other);
    g := SpiByte(f, 0, other);
    StatusPolled(f, g);
  }

  lemma StatusPolled(f: Flash, g: Flash)
    requires Polled(f, f.mem) && g == Sent(f, 0)
    ensures Polled(g, f.mem) && g.flags.wel == f.flags.wel
    ensures g.flags.timer <= f.flags.timer && (f.flags.timer > 0 ==> g.flags.timer < f.flags.timer)
    ensures f.flags.timer == 0 ==> g.oreg % 2 == 0
  {
    var x := Later(f, 15).(ireg := f.ireg * 256 + 0, count := f.count + 8);
    SentIs(f, 0, x);
    StatusData(x);
    var h := Later(x.(oreg := StatusByte(x)), 1).(lastSck := true);
    PolledOnce(f, x, h);
  }

  lemma PolledOnce(f: Flash, x: Flash, h: Flash)
    requires Polled(f, f.mem) && x == Later(f, 15).(ireg := x.ireg, count := f.count + 8)
    requires h == Later(x.(oreg := StatusByte(x)), 1).(lastSck := true)
    ensures Polled(h, f.mem) && h.flags.wel == f.flags.wel
    ensures h.flags.timer <= f.flags.timer && (f.flags.timer > 0 ==> h.flags.timer < f.flags.timer)
    ensures f.flags.timer == 0 ==> h.oreg % 2 == 0
  {
    WaitedFlags(f.flags, 15);
    WaitedFlags(x.flags, 1);
    StatusIsOdd(x);
  }

  lemma StatusData(x: Flash)
    requires Sized(x) && x.state == ReadStatus && x.count > 8 && !x.halted
    ensures Finished(Complete(x)) == Later(x.(oreg := StatusByte(x)), 1).(lastSck := true)
  {
    assert Complete(x) == Data(x);
  }

  /** `flwait`: the status is read until no write is in progress. It ends, however long the write takes. */
  method Wait(f: Flash, other: nat) returns (g: Flash)
    requires Settling(f)
    ensures Offline(g) && g.mem == f.mem && g.flags.wel == f.flags.wel
  {
    g := Finish(f);
    SettlingStays(f, g);
    g := AskStatus(g, other);
    var sr := g.oreg;
    g := Poll(g, other);
    while sr % 2 == 1
      invariant Polled(g, f.mem) && g.flags.wel == f.flags.wel
      invariant g.flags.wip ==> sr % 2 == 1
      decreases g.flags.timer, g.oreg % 2, sr % 2
    {
      sr := g.oreg;
      g := Poll(g, other);
    }
    ghost var h := g;
    g := Finish(g);
    WaitEnds(h, g);
  }

  lemma SettlingStays(f: Flash, g: Flash)
    requires Settling(f) && g == Deselect(Tick(f))
    ensures Settling(g) && g.mem == f.mem && g.flags.wel == f.flags.wel
  {
  }

  lemma WaitEnds(f: Flash, g: Flash)
    requires Polled(f, f.mem) && !f.flags.wip && g == Deselect(Tick(f))
    ensures Offline(g) && g.mem == f.mem && g.flags.wel == f.flags.wel
  {
  }
}
