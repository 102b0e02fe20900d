/** The simulator as the object it is: one call for every change of its inputs, and its fields updated in place. */
module FlashSimulator {
  import opened Words
  import opened FlashSim

  class FlashSimulator {
    var state: State
    var mode: Mode
    const mem: array<nat>
    const pmem: array<nat>
    var wip: bool
    var wel: bool
    var dpd: bool
    var writeCount: nat
    var other: nat
    var config: nat
    var count: nat
    var ireg: nat
    var oreg: nat
    var addr: nat
    var modeByte: nat
    var lastSck: bool
    var halted: bool

    ghost predicate Valid()
      reads this
    {
      mem.Length == MEMBYTES && pmem.Length == PAGE && mem != pmem
    }

    function Snapshot(): (f: Flash)
      requires Valid()
      reads this, mem, pmem
      ensures Sized(f)
    {
      Flash(state, mode, mem[..], pmem[..], Flags(wip, wel, dpd, writeCount), Registers(other, config),
            count, ireg, oreg, addr, modeByte, lastSck, halted)
    }

    /** A blank device, as it is delivered. */
    constructor ()
      ensures Valid() && fresh(mem) && fresh(pmem) && Sound(Snapshot()) && !Writes(state) && !halted
      ensures forall j | 0 <= j < MEMBYTES :: mem[j] == 0xff
    {
      state, mode := Idle, Spi;
      wip, wel, dpd, writeCount := false, false, false, 0;
      other, config := 0x1c, 0x01;
      count, ireg, oreg, addr, modeByte := 0, 0, 0, 0, 0;
      lastSck, halted := true, false;
      mem := new nat[MEMBYTES](_ => 0xff);
      pmem := new nat[PAGE](_ => 0xff);
    }

    /** The contents lose the bits that the page buffer lacks. */
    method ClearBits(base: nat)
      requires Valid()
      modifies mem
      ensures mem[..] == Programmed(old(mem[..]), base, pmem[..])
    {
      ghost var was := mem[..];
      var i := 0;
      while i < PAGE
        invariant 0 <= i <= PAGE
        invariant forall j | 0 <= j < MEMBYTES ::
                    mem[j] == if base <= j < base + i then And(was[j], pmem[j - base]) else was[j]
      {
        if base + i < mem.Length {
          mem[base + i] := And(mem[base + i], pmem[i]);
        }
        i := i + 1;
      }
    }

    method SetBits(base: nat, size: nat)
      requires Valid()
      modifies mem
      ensures mem[..] == Erased(old(mem[..]), base, size)
    {
      ghost var was := mem[..];
      var i := 0;
      while i < size
        invariant 0 <= i <= size
        invariant forall j | 0 <= j < MEMBYTES :: mem[j] == if base <= j < base + i then 0xff else was[j]
      {
        if base + i < mem.Length {
          mem[base + i] := 0xff;
        }
        i := i + 1;
      }
    }

    method StartBusy(t: nat)
      modifies `state, `wip, `wel, `writeCount
      ensures state == Idle && wip && !wel && writeCount == t
    {
      writeCount := t;
      state := Idle;
      wel := false;
      wip := true;
    }

    /** The read states on deselection: another read to come, or back to commands. */
    method EndRead(idle: State)
      modifies `state, `mode
      ensures state == (if StaysInRead(modeByte) then idle else old(state))
      ensures mode == if StaysInRead(modeByte) then old(mode) else Spi
    {
      if modeByte / 16 % 16 != 10 {
        mode := Spi;
      } else {
        state := idle;
      }
    }

    /** The device forgets what came in, and shows that it is deselected. */
    method ClearInputs()
      requires Valid()
      modifies `lastSck, `ireg, `oreg, `count
      ensures lastSck && ireg == 0 && oreg == 0xfe && count == 0
    {
      lastSck, ireg, oreg, count := true, 0, 0xfe, 0;
    }

    method EndProgram()
      requires Valid() && (state == PageProgram || state == QuadPageProgram)
      modifies this, mem
      ensures Valid() && Snapshot() == Deselect(old(Snapshot()))
    {
      ghost var f := Snapshot();
      StartBusy(T_PP);
      ClearBits(addr / PAGE * PAGE);
      assert mem[..] == EndMem(f);
      mode := Spi;
      ClearInputs();
    }

    method EndSectorErase()
      requires Valid() && state == SectorErase
      modifies this, mem
      ensures Valid() && Snapshot() == Deselect(old(Snapshot()))
    {
      ghost var f := Snapshot();
      StartBusy(T_SE);
      addr := addr / SECTOR * SECTOR;
      SetBits(addr, SECTOR);
      assert mem[..] == EndMem(f);
      ClearInputs();
    }

    method EndBulkErase()
      requires Valid() && state == BulkErase
      modifies this, mem
      ensures Valid() && Snapshot() == Deselect(old(Snapshot()))
    {
      ghost var f := Snapshot();
      StartBusy(T_BE);
      SetBits(0, MEMBYTES);
      assert mem[..] == EndMem(f);
      ClearInputs();
    }

    /** The ends that leave the contents alone. */
    method EndOther()
      requires Valid() && !Writes(state)
      modifies this
      ensures Valid() && Snapshot() == Deselect(old(Snapshot()))
    {
      if state == WriteStatus {
        StartBusy(T_W);
      } else if state == ClearStatus {
        state := Idle;
        other, dpd := And(other, 0x9c), false;
      } else if state == Release {
        writeCount := T_RES;
        state := Idle;
      } else if state == QuadReadCmd || state == QuadRead {
        EndRead(QuadReadIdle);
      } else if state == DualReadCmd || state == DualRead {
        EndRead(DualReadIdle);
      }
      ClearInputs();
    }

    method EndSelection()
      requires Valid()
      modifies this, mem
      ensures Valid() && Snapshot() == Deselect(old(Snapshot()))
    {
      if state == PageProgram || state == QuadPageProgram {
        EndProgram();
      } else if state == SectorErase {
        EndSectorErase();
      } else if state == BulkErase {
        EndBulkErase();
      } else {
        EndOther();
      }
    }

    /** A write command is taken only with the write-enable latch set and no write in progress. */
    method TakeWrite(next: State)
      modifies `state
      ensures state == if Writable(Flags(wip, wel, dpd, writeCount)) then next else Invalid
    {
      state := if wel && !wip && !dpd then next else Invalid;
    }

    method TakeCommand()
      requires Valid()
      modifies `state, `mode, `wel, `dpd, `writeCount, `oreg, `halted
      ensures Snapshot() == Decode(old(Snapshot()))
    {
      var c := ireg % 256;
      oreg := 0xa5;
      if dpd && c != 0xab {
        return;
      }
      if c == 0x01 || c == 0x02 || c == 0x32 || c == 0xc7 || c == 0xd8 {
        TakeWriteCommand(c);
      } else if c == 0x03 || c == 0x05 || c == 0x0b || c == 0x30 || c == 0x35 {
        TakeReadCommand(c);
      } else {
        TakeRareCommand(c);
      }
    }

    /** Single-bit reads of the contents and the registers, and the clearing of the status. */
    method TakeReadCommand(c: nat)
      requires Valid() && oreg == 0xa5 && c == ireg % 256 && !dpd
      requires c == 0x03 || c == 0x05 || c == 0x0b || c == 0x30 || c == 0x35
      modifies `state, `oreg
      ensures Snapshot() == Decode(old(Snapshot()))
    {
      if c == 0x03 {
        state := SlowRead;
      } else if c == 0x05 {
        state, oreg := ReadStatus, StatusByte(Snapshot());
      } else if c == 0x0b {
        state := FastRead;
      } else if c == 0x30 {
        state := ClearStatus;
      } else {
        state, oreg := ReadConfig, config % 256;
      }
    }

    /** The commands that start a write; all but the first of them change the contents. */
    method TakeWriteCommand(c: nat)
      requires Valid() && oreg == 0xa5 && c == ireg % 256 && !dpd
      requires c == 0x01 || c == 0x02 || c == 0x32 || c == 0xc7 || c == 0xd8
      modifies `state
      ensures Snapshot() == Decode(old(Snapshot()))
    {
      if c == 0x01 {
        TakeWrite(WriteStatus);
      } else if c == 0x02 {
        TakeWrite(PageProgram);
      } else if c == 0x32 {
        TakeWrite(QuadPageProgram);
      } else if c == 0xc7 {
        TakeWrite(BulkErase);
      } else {
        TakeWrite(SectorErase);
      }
    }

    /** The rest: the write latch, resets, reads that few drivers use, and powering down. */
    method TakeRareCommand(c: nat)
      requires Valid() && oreg == 0xa5 && c == ireg % 256 && !(dpd && c != 0xab)
      requires !(c in {0x01, 0x02, 0x03, 0x05, 0x0b, 0x30, 0x32, 0x35, 0xc7, 0xd8})
      modifies `state, `mode, `wel, `dpd, `writeCount, `oreg, `halted
      ensures Snapshot() == Decode(old(Snapshot()))
    {
      if c == 0x04 {
        state, wel := Idle, false;
      } else if c == 0x06 {
        state, wel := Idle, true;
      } else if c == 0x50 || c == 0x61 || c == 0x70 {
        state, oreg := Idle, 0;
      } else if c == 0x81 {
        oreg := 0;
      } else if c == 0x9f {
        state, oreg := ReadId, DEVID / 0x100_0000;
      } else if c == 0xab {
        if dpd {
          dpd, writeCount := false, T_RES;
        }
        state := Release;
      } else if c == 0xb9 {
        if wip {
          state := Invalid;
        } else {
          dpd, state := true, Idle;
        }
      } else if c == 0xbb {
        state, mode := DualReadCmd, Dspi;
      } else if c == 0xeb {
        state, mode := QuadReadCmd, Qspi;
      } else if c == 0x00 || c == 0xff {
        state, mode := Idle, Spi;
      } else {
        state, halted := Invalid, true;
      }
    }

    /** The next byte of the contents. */
    method FetchByte()
      requires Valid()
      modifies `oreg, `addr
      ensures oreg == (if old(addr) < |mem[..]| then mem[..][old(addr)] else 0) && addr == old(addr) + 1
    {
      oreg := if addr < mem.Length then mem[addr] else 0;
      addr := addr + 1;
    }

    /** The page buffer made blank. */
    method BlankPage()
      requires Valid()
      modifies pmem
      ensures pmem[..] == seq(PAGE, k => 0xff)
    {
      var i := 0;
      while i < PAGE
        invariant 0 <= i <= PAGE && forall k | 0 <= k < i :: pmem[k] == 0xff
      {
        pmem[i] := 0xff;
        i := i + 1;
      }
    }

    /** A byte of page data, or the address it starts at. */
    method LoadByte()
      requires Valid() && (state == PageProgram || state == QuadPageProgram)
      modifies `addr, pmem
      ensures pmem[..] == DataPage(old(Snapshot())) && addr == DataAddr(old(Snapshot()))
    {
      ghost var f := Snapshot();
      if count == 32 {
        addr := ireg % MEMBYTES;
        BlankPage();
      } else if count >= 40 {
        pmem[addr % PAGE] := ireg % 256;
        assert pmem[..] == f.pmem[f.addr % PAGE := f.ireg % 256];
        addr := addr / PAGE * PAGE + (addr + 1) % PAGE;
      }
    }

    /** A byte of a read. */
    method ReadByte()
      requires Valid() && oreg == 0
      requires state == SlowRead || state == FastRead || state == DualReadCmd || state == QuadReadCmd
               || state == DualRead || state == QuadRead
      modifies `oreg, `addr, `modeByte
      ensures oreg == DataOut(old(Snapshot())) && addr == DataAddr(old(Snapshot()))
      ensures modeByte == DataModeByte(old(Snapshot()))
    {
      var n := count;
      if n == 32 && (state == SlowRead || state == FastRead || state == DualReadCmd || state == QuadReadCmd) {
        addr := ireg % MEMBYTES;
        if state == SlowRead {
          FetchByte();
        } else if state == FastRead {
          oreg := 0xc3;
        }
      } else if (state == SlowRead || state == FastRead) && n >= 40 && !wip {
        FetchByte();
      } else if state == DualReadCmd && n >= 40 && !wip {
        if n == 40 {
          modeByte := ireg % 256;
        }
        FetchByte();
      } else if state == QuadReadCmd && n == 40 {
        modeByte := ireg % 256;
      } else if state == QuadReadCmd && n > 32 + 4 * NDUMMY && !wip {
        FetchByte();
      } else if state == DualRead {
        if n == 32 {
          modeByte := ireg % 256;
        }
        FetchByte();
      } else if state == QuadRead && n == 32 {
        modeByte := ireg % 256;
      } else if state == QuadRead && n >= 24 + 4 * NDUMMY && !wip {
        FetchByte();
      }
    }

    /** A byte for the status or the configuration register. */
    method TakeRegister()
      requires Valid() && state == WriteStatus
      modifies `state, `wel, `dpd, `other, `config, `oreg, `halted
      ensures Snapshot() == Data(old(Snapshot()))
    {
      oreg := 0;
      if count == 16 {
        TakeStatus();
      } else if count == 24 {
        TakeConfig();
      } else {
        state, halted := Idle, true;
      }
    }

    method TakeStatus()
      requires Valid() && state == WriteStatus && count == 16 && oreg == 0
      modifies `wel, `dpd, `other
      ensures Snapshot() == Data(old(Snapshot()))
    {
      ghost var f := Snapshot();
      wel, dpd, other := false, false, Or(And(other, 0x60), And(ireg % 256, 0x9c));
      assert Registers(other, config) == DataRegisters(f);
    }

    method TakeConfig()
      requires Valid() && state == WriteStatus && count == 24 && oreg == 0
      modifies `config
      ensures Snapshot() == Data(old(Snapshot()))
    {
      ghost var f := Snapshot();
      config := Or(And(config, 0xfd), And(ireg % 256, 0x02));
      assert Registers(other, config) == DataRegisters(f);
    }

    method TakePageByte()
      requires Valid() && (state == PageProgram || state == QuadPageProgram)
      modifies `addr, `oreg, `mode, pmem
      ensures Snapshot() == Data(old(Snapshot()))
    {
      LoadByte();
      oreg := 0;
      if state == QuadPageProgram && count == 32 {
        mode := Qspi;
      }
    }

    method TakeReadByte()
      requires Valid()
      requires state == SlowRead || state == FastRead || state == DualReadCmd || state == QuadReadCmd
               || state == DualRead || state == QuadRead
      modifies `oreg, `addr, `modeByte
      ensures Snapshot() == Data(old(Snapshot()))
    {
      oreg := 0;
      ReadByte();
    }

    /** Bytes that change nothing but what the device says next, or the address of an erase. */
    method TakeOtherByte()
      requires Valid() && state != WriteStatus && state != PageProgram && state != QuadPageProgram
      requires state != SlowRead && state != FastRead && state != DualReadCmd && state != QuadReadCmd
      requires state != DualRead && state != QuadRead
      modifies `oreg, `addr, `halted
      ensures Snapshot() == Data(old(Snapshot()))
    {
      oreg := 0;
      if state == ClearStatus {
        halted := true;
      } else if state == ReadId {
        oreg := if count == 16 then 0x15 else if count == 24 then 0x23 else if count == 32 then 0x40 else 0;
      } else if state == ReadStatus {
        oreg := StatusByte(Snapshot());
      } else if state == ReadConfig {
        oreg := config % 256;
      } else if state == SectorErase && count == 32 {
        addr := EraseBase(ireg);
        halted := halted || addr >= 0x40_0000;
      } else if state == Release && count >= 32 {
        oreg := DEVESD;
      }
    }

    method TakeByte()
      requires Valid()
      modifies this, pmem
      ensures Valid() && Snapshot() == Data(old(Snapshot()))
    {
      match state
      case WriteStatus => TakeRegister();
      case PageProgram => TakePageByte();
      case QuadPageProgram => TakePageByte();
      case SlowRead => TakeReadByte();
      case FastRead => TakeReadByte();
      case DualReadCmd => TakeReadByte();
      case QuadReadCmd => TakeReadByte();
      case DualRead => TakeReadByte();
      case QuadRead => TakeReadByte();
      case _ => TakeOtherByte();
    }

    /** A read without a command: 24 bits of address, taken by a device that must be awake and in the right mode. */
    method ResumeRead(right: Mode, next: State)
      requires Valid()
      modifies `state, `addr, `oreg, `halted
      ensures Snapshot() == Resume(old(Snapshot()), right, next)
    {
      if dpd || mode != right {
        halted := true;
        return;
      }
      if count == 24 {
        addr := ireg % MEMBYTES;
        state := next;
      }
      oreg := 0;
    }

    /** The lines shifted in, as many as the mode has. */
    method ShiftIn(dat: nat)
      requires Valid()
      modifies `ireg, `count
      ensures Snapshot() == Shifted(old(Snapshot()), dat)
    {
      if mode == Qspi {
        ireg := ireg * 16 + dat % 16;
        count := count + 4;
      } else if mode == Dspi {
        ireg := ireg * 4 + dat % 4;
        count := count + 2;
      } else {
        ireg := ireg * 2 + dat % 2;
        count := count + 1;
      }
    }

    method FallingEdge(dat: nat)
      requires Valid()
      modifies this, pmem
      ensures Valid() && Snapshot() == Edge(old(Snapshot()), dat)
    {
      ShiftIn(dat);
      if state == QuadReadIdle {
        ResumeRead(Qspi, QuadRead);
      } else if state == DualReadIdle {
        ResumeRead(Dspi, DualRead);
      } else if count == 8 {
        TakeCommand();
      } else if count % 8 == 0 && count != 0 {
        TakeByte();
      }
      lastSck := false;
    }

    /** When a busy time ends, the three flags are cleared. */
    method CountDown()
      requires Valid()
      modifies `writeCount, `wip, `wel, `dpd
      ensures Snapshot() == Tick(old(Snapshot()))
    {
      if writeCount > 0 {
        writeCount := writeCount - 1;
        if writeCount == 0 {
          wip, wel, dpd := false, false, false;
        }
      }
    }

    /** `operator()` */
    method Operate(csn: bool, sck: bool, dat: nat)
      requires Valid()
      modifies this, mem, pmem
      ensures Valid() && Snapshot() == Call(old(Snapshot()), csn, sck, dat)
    {
      if halted {
        return;
      }
      CountDown();
      if csn {
        EndSelection();
      } else if !lastSck || sck == lastSck {
        lastSck := sck;
      } else {
        FallingEdge(dat);
      }
    }
  }
}
