/**
 * The NOR flash as its simulator has it: a serial device clocked bit by bit, that only clears bits
 * when programmed, guards writes with a latch, and is busy for a time after each.
 */
module FlashSim {
  import opened Words

  const MEMBYTES := 0x100_0000
  const SECTOR := 0x1_0000
  const PAGE := 256
  const NDUMMY := 6

  // Busy times, in clocks of the simulation.
  const T_W := 5000
  const T_PP := 1200
  const T_SE := 1500000
  const T_BE := 3200000000
  const T_RES := 3000000000

  const DEVID := 0x01152340
  const DEVESD := 0x14

  datatype State =
    | Idle | Invalid
    | ReadStatus | ReadConfig | ReadId | SlowRead | FastRead
    | QuadReadCmd | QuadRead | QuadReadIdle
    | DualReadCmd | DualRead | DualReadIdle
    | WriteStatus | ClearStatus | Release
    | PageProgram | QuadPageProgram | SectorErase | BulkErase

  datatype Mode = Spi | Dspi | Qspi

  /** Write in progress, write enable, deep power down, and the clocks until the next change of them. */
  datatype Flags = Flags(wip: bool, wel: bool, dpd: bool, timer: nat)

  /** The other bits of the status register, and the configuration register. */
  datatype Registers = Registers(other: nat, config: nat)

  /**
   * `ireg` is kept whole: every use takes some of its low 24 bits. `oreg` is the byte that leaves
   * while the next one comes in. `halted` stands for a failed assertion or an exit of the simulator.
   */
  datatype Flash = Flash(
    state: State, mode: Mode, mem: seq<nat>, pmem: seq<nat>, flags: Flags, regs: Registers,
    count: nat, ireg: nat, oreg: nat, addr: nat, modeByte: nat, lastSck: bool, halted: bool)

  predicate Sized(f: Flash) {
    |f.mem| == MEMBYTES && |f.pmem| == PAGE
  }

  function StatusByte(f: Flash): nat {
    f.regs.other + (if f.flags.wel then 2 else 0) + (if f.flags.wip then 1 else 0)
  }

  // ----- the timer

  /** One clock: when a busy time ends, the three flags are cleared. */
  function Elapsed(fl: Flags): Flags {
    if fl.timer == 0 then fl
    else if fl.timer == 1 then Flags(false, false, false, 0)
    else fl.(timer := fl.timer - 1)
  }

  function Tick(f: Flash): (g: Flash)
    ensures Sized(f) ==> Sized(g)
  {
    f.(flags := Elapsed(f.flags))
  }

  // ----- deselection

  function Programmed(mem: seq<nat>, base: nat, pmem: seq<nat>): (m: seq<nat>)
    requires |pmem| == PAGE
    ensures |m| == |mem|
  {
    seq(|mem|, j requires 0 <= j < |mem| => if base <= j < base + PAGE then And(mem[j], pmem[j - base]) else mem[j])
  }

  function Erased(mem: seq<nat>, base: nat, size: nat): (m: seq<nat>)
    ensures |m| == |mem|
  {
    seq(|mem|, j requires 0 <= j < |mem| => if base <= j < base + size then 0xff else mem[j])
  }

  /** Whether a mode byte asks for the next read to need no command. */
  predicate StaysInRead(modeByte: nat) {
    modeByte / 16 % 16 == 10
  }

  /** States whose end changes the contents. */
  predicate Writes(s: State) {
    s == PageProgram || s == QuadPageProgram || s == SectorErase || s == BulkErase
  }

  function EndState(s: State, modeByte: nat): State {
    if Writes(s) || s == WriteStatus || s == ClearStatus || s == Release then Idle
    else if (s == QuadReadCmd || s == QuadRead) && StaysInRead(modeByte) then QuadReadIdle
    else if (s == DualReadCmd || s == DualRead) && StaysInRead(modeByte) then DualReadIdle
    else s
  }

  function EndMode(s: State, modeByte: nat, m: Mode): Mode {
    if s == PageProgram || s == QuadPageProgram then Spi
    else if (s == QuadReadCmd || s == QuadRead || s == DualReadCmd || s == DualRead) && !StaysInRead(modeByte) then Spi
    else m
  }

  function EndMem(f: Flash): (m: seq<nat>)
    requires Sized(f)
    ensures |m| == |f.mem|
  {
    if f.state == PageProgram || f.state == QuadPageProgram then Programmed(f.mem, f.addr / PAGE * PAGE, f.pmem)
    else if f.state == SectorErase then Erased(f.mem, f.addr / SECTOR * SECTOR, SECTOR)
    else if f.state == BulkErase then Erased(f.mem, 0, MEMBYTES)
    else f.mem
  }

  /** Starting a write clears the write-enable latch; the device is then busy for a while. */
  function EndFlags(s: State, fl: Flags): Flags {
    if s == PageProgram || s == QuadPageProgram then Flags(true, false, fl.dpd, T_PP)
    else if s == SectorErase then Flags(true, false, fl.dpd, T_SE)
    else if s == BulkErase then Flags(true, false, fl.dpd, T_BE)
    else if s == WriteStatus then Flags(true, false, fl.dpd, T_W)
    else if s == ClearStatus then fl.(dpd := false)
    else if s == Release then fl.(timer := T_RES)
    else fl
  }

  /** The end of a command: programs and erases happen now. */
  function Deselect(f: Flash): (g: Flash)
    requires Sized(f)
    ensures Sized(g)
  {
    Flash(EndState(f.state, f.modeByte), EndMode(f.state, f.modeByte, f.mode), EndMem(f), f.pmem,
          EndFlags(f.state, f.flags),
          if f.state == ClearStatus then f.regs.(other := And(f.regs.other, 0x9c)) else f.regs,
          0, 0, 0xfe, if f.state == SectorErase then f.addr / SECTOR * SECTOR else f.addr, f.modeByte, true, f.halted)
  }

  // ----- commands

  /** Whether a write may start. */
  predicate Writable(fl: Flags) {
    fl.wel && !fl.wip && !fl.dpd
  }

  /** A device in deep power down listens for its release only. */
  predicate Ignores(fl: Flags, c: nat) {
    fl.dpd && c != 0xab
  }

  function WriteState(c: nat): State {
    match c
    case 0x01 => WriteStatus
    case 0x02 => PageProgram
    case 0x32 => QuadPageProgram
    case 0xc7 => BulkErase
    case 0xd8 => SectorErase
    case _ => Invalid
  }

  predicate IsWrite(c: nat) {
    WriteState(c) != Invalid
  }

  function CommandState(c: nat, fl: Flags, s: State): State {
    if Ignores(fl, c) then s
    else if IsWrite(c) then (if Writable(fl) then WriteState(c) else Invalid)
    else
      match c
      case 0x03 => SlowRead
      case 0x05 => ReadStatus
      case 0x0b => FastRead
      case 0x30 => ClearStatus
      case 0x35 => ReadConfig
      case 0x81 => s
      case 0x9f => ReadId
      case 0xab => Release
      case 0xb9 => if fl.wip then Invalid else Idle
      case 0xbb => DualReadCmd
      case 0xeb => QuadReadCmd
      case _ => if IsNoOperation(c) then Idle else Invalid
  }

  /** Write enable and disable, resets, and commands taken but not acted on. */
  predicate IsNoOperation(c: nat) {
    c == 0x00 || c == 0x04 || c == 0x06 || c == 0x50 || c == 0x61 || c == 0x70 || c == 0xff
  }

  predicate IsKnown(c: nat) {
    IsNoOperation(c) || IsWrite(c) || c in {0x03, 0x05, 0x0b, 0x30, 0x35, 0x81, 0x9f, 0xab, 0xb9, 0xbb, 0xeb}
  }

  function CommandMode(c: nat, fl: Flags, m: Mode): Mode {
    if Ignores(fl, c) then m
    else if c == 0xbb then Dspi
    else if c == 0xeb then Qspi
    else if c == 0x00 || c == 0xff then Spi
    else m
  }

  function CommandFlags(c: nat, fl: Flags): Flags {
    if Ignores(fl, c) then fl
    else if c == 0x04 then fl.(wel := false)
    else if c == 0x06 then fl.(wel := true)
    else if c == 0xab && fl.dpd then fl.(dpd := false, timer := T_RES)
    else if c == 0xb9 && !fl.wip then fl.(dpd := true)
    else fl
  }

  function CommandOut(c: nat, f: Flash): nat {
    if Ignores(f.flags, c) then 0xa5
    else if c == 0x05 then StatusByte(f)
    else if c == 0x35 then f.regs.config % 256
    else if c == 0x50 || c == 0x61 || c == 0x70 || c == 0x81 then 0
    else if c == 0x9f then DEVID / 0x100_0000
    else 0xa5
  }

  /** The command just read. */
  function Decode(f: Flash): (g: Flash)
    ensures g.mem == f.mem && g.pmem == f.pmem
  {
    var c := f.ireg % 256;
    f.(state := CommandState(c, f.flags, f.state), mode := CommandMode(c, f.flags, f.mode),
       flags := CommandFlags(c, f.flags), oreg := CommandOut(c, f),
       halted := f.halted || (!Ignores(f.flags, c) && !IsKnown(c)))
  }

  // ----- the bytes after a command

  datatype Option<T> = None | Some(value: T)

  /** The address a byte is read from, if one is; a busy device gives none, except in a dual read. */
  function FetchFrom(f: Flash): Option<nat> {
    var n := f.count;
    if f.state == SlowRead && n == 32 then Some(f.ireg % MEMBYTES)
    else if f.state == DualRead then Some(f.addr)
    else if f.flags.wip then None
    else if (f.state == SlowRead || f.state == FastRead || f.state == DualReadCmd) && n >= 40 then Some(f.addr)
    else if f.state == QuadReadCmd && n > 32 + 4 * NDUMMY then Some(f.addr)
    else if f.state == QuadRead && n >= 24 + 4 * NDUMMY then Some(f.addr)
    else None
  }

  /** Erase addresses keep bits 14 to 23. */
  function EraseBase(ireg: nat): nat {
    ireg % MEMBYTES / 0x4000 * 0x4000
  }

  function DataAddr(f: Flash): nat {
    var s, n := f.state, f.count;
    if FetchFrom(f).Some? then FetchFrom(f).value + 1
    else if n == 32 && s == SectorErase then EraseBase(f.ireg)
    else if n == 32 && (s == FastRead || s == DualReadCmd || s == QuadReadCmd || s == PageProgram || s == QuadPageProgram) then
      f.ireg % MEMBYTES
    else if n >= 40 && (s == PageProgram || s == QuadPageProgram) then f.addr / PAGE * PAGE + (f.addr + 1) % PAGE
    else f.addr
  }

  /** The page buffer: blank at first, then filled byte by byte, wrapping around. */
  function DataPage(f: Flash): (p: seq<nat>)
    requires Sized(f)
    ensures |p| == PAGE
  {
    if f.state != PageProgram && f.state != QuadPageProgram then f.pmem
    else if f.count == 32 then seq(PAGE, k => 0xff)
    else if f.count >= 40 then f.pmem[f.addr % PAGE := f.ireg % 256]
    else f.pmem
  }

  function DataModeByte(f: Flash): nat {
    if (f.state == DualReadCmd && f.count == 40 && !f.flags.wip) || (f.state == QuadReadCmd && f.count == 40)
       || ((f.state == DualRead || f.state == QuadRead) && f.count == 32)
    then f.ireg % 256
    else f.modeByte
  }

  function DataOut(f: Flash): nat {
    var a, n := FetchFrom(f), f.count;
    if a.Some? then (if a.value < |f.mem| then f.mem[a.value] else 0)
    else
      match f.state
      case ReadStatus => StatusByte(f)
      case ReadConfig => f.regs.config % 256
      case ReadId => if n == 16 then 0x15 else if n == 24 then 0x23 else if n == 32 then 0x40 else 0
      case FastRead => if n == 32 then 0xc3 else 0
      case Release => if n >= 32 then DEVESD else 0
      case _ => 0
  }

  function DataRegisters(f: Flash): Registers {
    if f.state != WriteStatus then f.regs
    else if f.count == 16 then f.regs.(other := Or(And(f.regs.other, 0x60), And(f.ireg % 256, 0x9c)))
    else if f.count == 24 then f.regs.(config := Or(And(f.regs.config, 0xfd), And(f.ireg % 256, 0x02)))
    else f.regs
  }

  /** Too many bytes for a status write or clear, or an erase beyond what the simulator lets through. */
  predicate DataHalts(f: Flash) {
    || (f.state == WriteStatus && f.count != 16 && f.count != 24)
    || f.state == ClearStatus
    || (f.state == SectorErase && f.count == 32 && EraseBase(f.ireg) >= 0x40_0000)
  }

  function Data(f: Flash): (g: Flash)
    requires Sized(f)
    ensures Sized(g) && g.mem == f.mem
  {
    f.(state := if f.state == WriteStatus && f.count != 16 && f.count != 24 then Idle else f.state,
       mode := if f.state == QuadPageProgram && f.count == 32 then Qspi else f.mode,
       pmem := DataPage(f),
       flags := if f.state == WriteStatus && f.count == 16 then f.flags.(wel := false, dpd := false) else f.flags,
       regs := DataRegisters(f), oreg := DataOut(f), addr := DataAddr(f), modeByte := DataModeByte(f),
       halted := f.halted || DataHalts(f))
  }

  // ----- clocks

  function Bits(m: Mode): nat {
    match m
    case Spi => 1
    case Dspi => 2
    case Qspi => 4
  }

  /** The bits a falling edge brings in: as many as the mode has lines. */
  function ShiftedIn(m: Mode, ireg: nat, dat: nat): nat {
    match m
    case Spi => ireg * 2 + dat % 2
    case Dspi => ireg * 4 + dat % 4
    case Qspi => ireg * 16 + dat % 16
  }

  function Shifted(f: Flash, dat: nat): Flash {
    f.(ireg := ShiftedIn(f.mode, f.ireg, dat), count := f.count + Bits(f.mode))
  }

  /** A device reading without a command takes 24 bits of address; it must not be powered down, nor in another mode. */
  function Resume(f: Flash, mode: Mode, next: State): (g: Flash)
    ensures g.mem == f.mem && g.pmem == f.pmem
  {
    if f.flags.dpd || f.mode != mode then f.(halted := true)
    else if f.count == 24 then f.(addr := f.ireg % MEMBYTES, state := next, oreg := 0)
    else f.(oreg := 0)
  }

  /** What the bits shifted in so far call for. */
  function Process(f: Flash): (g: Flash)
    requires Sized(f)
    ensures Sized(g) && g.mem == f.mem
  {
    if f.state == QuadReadIdle then Resume(f, Qspi, QuadRead)
    else if f.state == DualReadIdle then Resume(f, Dspi, DualRead)
    else if f.count == 8 then Decode(f)
    else if f.count % 8 == 0 && f.count != 0 then Data(f)
    else f
  }

  function Edge(f: Flash, dat: nat): (g: Flash)
    requires Sized(f)
    ensures Sized(g) && g.mem == f.mem
  {
    Process(Shifted(f, dat)).(lastSck := false)
  }

  /** One call of the simulator, with the state of its three inputs. */
  function Call(f: Flash, csn: bool, sck: bool, dat: nat): (g: Flash)
    requires Sized(f)
    ensures Sized(g)
  {
    if f.halted then f
    else if csn then Deselect(Tick(f))
    else if !f.lastSck || sck then Tick(f).(lastSck := sck)
    else Edge(Tick(f), dat)
  }

  // ----- what every run keeps

  predicate Bytes(s: seq<nat>) {
    forall k | 0 <= k < |s| :: s[k] < 256
  }

  /** The mode agrees with the state, and the flags with the timer. */
  predicate Agrees(f: Flash) {
    && (f.state == QuadReadIdle ==> f.mode == Qspi)
    && (f.state == DualReadIdle ==> f.mode == Dspi)
    && (f.mode == Qspi ==> InQuad(f.state) && (f.state != QuadReadIdle ==> f.count >= 8))
    && (f.mode == Dspi ==> InDual(f.state) && (f.state != DualReadIdle ==> f.count >= 8))
    && ((InQuad(f.state) || InDual(f.state)) && f.state != QuadPageProgram && f.mode == Spi ==>
          f.count < 8 && !StaysInRead(f.modeByte))
    && (f.state == QuadReadCmd || f.state == QuadRead ==> f.mode != Dspi)
    && (f.state == DualReadCmd || f.state == DualRead ==> f.mode != Qspi)
    && (f.flags.dpd ==> f.state == Idle)
    && (f.flags.wip ==> f.flags.timer > 0)
    && f.regs.other % 2 == 0
  }

  predicate InQuad(s: State) {
    s == QuadReadIdle || s == QuadReadCmd || s == QuadRead || s == QuadPageProgram
  }

  predicate InDual(s: State) {
    s == DualReadIdle || s == DualReadCmd || s == DualRead
  }

  ghost predicate Sound(f: Flash) {
    Sized(f) && Bytes(f.mem) && Bytes(f.pmem) && Agrees(f)
  }

  /** Command 0x81 leaves the state as it was, whatever it was; it is not part of this model's runs. */
  predicate Excluded(f: Flash, csn: bool, sck: bool, dat: nat) {
    !csn && !sck && f.lastSck && f.mode == Spi && f.count == 7 && (f.ireg * 2 + dat % 2) % 256 == 0x81
  }

  lemma ProgrammedBytes(mem: seq<nat>, base: nat, pmem: seq<nat>)
    requires Bytes(mem) && |pmem| == PAGE
    ensures Bytes(Programmed(mem, base, pmem))
  {
    var m := Programmed(mem, base, pmem);
    forall j | 0 <= j < |m|
      ensures m[j] < 256
    {
      if base <= j < base + PAGE {
        AndBelow(mem[j], pmem[j - base]);
      }
    }
  }

  lemma TickKeepsSound(f: Flash)
    requires Sound(f)
    ensures Sound(Tick(f))
  {
  }

  lemma DeselectKeepsSound(f: Flash)
    requires Sound(f)
    ensures Sound(Deselect(f))
  {
    ProgrammedBytes(f.mem, f.addr / PAGE * PAGE, f.pmem);
    assert Bytes(EndMem(f));
    DeselectKeepsAgreement(f);
  }

  lemma DeselectKeepsAgreement(f: Flash)
    requires Sized(f) && Agrees(f)
    ensures Agrees(Deselect(f))
  {
    MaskedIsEven(f.regs.other, 0x9c);
  }

  /** A command leads out of every read mode but the one it starts. */
  lemma CommandModes(c: nat, fl: Flags, s: State, m: Mode)
    requires m == Spi && c != 0x81 && (fl.dpd ==> s == Idle)
    ensures var t, n := CommandState(c, fl, s), CommandMode(c, fl, m);
            && (n == Qspi ==> t == QuadReadCmd) && (n == Dspi ==> t == DualReadCmd)
            && (n == Spi ==> !InDual(t) && (InQuad(t) ==> t == QuadPageProgram))
  {
  }

  lemma CommandKeepsFlags(c: nat, fl: Flags, s: State)
    requires (fl.dpd ==> s == Idle) && (fl.wip ==> fl.timer > 0)
    ensures var t, g := CommandState(c, fl, s), CommandFlags(c, fl);
            (g.dpd ==> t == Idle) && (g.wip ==> g.timer > 0)
  {
  }

  lemma DecodeKeepsSound(f: Flash)
    requires Sized(f) && Bytes(f.mem) && Bytes(f.pmem) && f.count == 8 && f.mode == Spi && f.ireg % 256 != 0x81
    requires (f.flags.dpd ==> f.state == Idle) && (f.flags.wip ==> f.flags.timer > 0) && f.regs.other % 2 == 0
    ensures Sound(Decode(f))
  {
    var c := f.ireg % 256;
    CommandModes(c, f.flags, f.state, f.mode);
    CommandKeepsFlags(c, f.flags, f.state);
  }

  /** A byte after a command keeps the device sound. */
  lemma DataKeepsSound(f: Flash)
    requires Sized(f) && Bytes(f.mem) && Bytes(f.pmem) && Agrees(f) && f.count > 8
    ensures Sound(Data(f))
  {
    RegistersStayEven(f);
    DataKeepsBytes(f);
    DataKeepsAgreement(f);
  }

  lemma RegistersStayEven(f: Flash)
    requires f.regs.other % 2 == 0
    ensures DataRegisters(f).other % 2 == 0
  {
    MaskedIsEven(f.regs.other, 0x60);
    MaskedIsEven(f.ireg % 256, 0x9c);
    OrStaysEven(And(f.regs.other, 0x60), And(f.ireg % 256, 0x9c));
  }

  lemma OrStaysEven(x: nat, y: nat)
    requires x % 2 == 0 && y % 2 == 0
    ensures Or(x, y) % 2 == 0
  {
  }

  lemma DataKeepsBytes(f: Flash)
    requires Sized(f) && Bytes(f.pmem)
    ensures Bytes(DataPage(f))
  {
  }

  lemma DataKeepsAgreement(f: Flash)
    requires Sized(f) && Agrees(f) && f.count > 8 && DataRegisters(f).other % 2 == 0
    ensures Agrees(Data(f))
  {
    var g := Data(f);
    assert g.regs == DataRegisters(f) && g.count == f.count;
    assert g.state == f.state || (f.state == WriteStatus && g.state == Idle);
  }

  lemma MaskedIsEven(x: nat, mask: nat)
    requires mask % 2 == 0
    ensures And(x, mask) % 2 == 0
  {
  }

  /** A falling edge keeps the device sound, and its assertions about reads without a command hold. */
  lemma EdgeKeepsSound(f: Flash, dat: nat)
    requires Sound(f) && !Excluded(f.(lastSck := true), false, false, dat)
    ensures Sound(Edge(f, dat))
    ensures !f.halted && (f.state == QuadReadIdle || f.state == DualReadIdle) ==> !Edge(f, dat).halted
  {
    var g := Shifted(f, dat);
    if f.state == QuadReadIdle || f.state == DualReadIdle {
    } else if g.count == 8 {
      DecodeKeepsSound(g);
    } else if g.count % 8 == 0 {
      ShiftKeepsAgreement(f, dat);
      DataKeepsSound(g);
    } else {
      ShiftKeepsAgreement(f, dat);
    }
  }

  lemma ShiftKeepsAgreement(f: Flash, dat: nat)
    requires Agrees(f) && f.state != QuadReadIdle && f.state != DualReadIdle && Shifted(f, dat).count != 8
    ensures Agrees(Shifted(f, dat)) && (Shifted(f, dat).count % 8 == 0 ==> Shifted(f, dat).count > 8)
  {
  }

  /** Every call keeps the device sound. */
  lemma CallKeepsSound(f: Flash, csn: bool, sck: bool, dat: nat)
    requires Sound(f) && !Excluded(f, csn, sck, dat)
    ensures Sound(Call(f, csn, sck, dat))
  {
    if !f.halted {
      TickKeepsSound(f);
      var g := Tick(f);
      if csn {
        DeselectKeepsSound(g);
      } else if g.lastSck && !sck {
        EdgeKeepsSound(g, dat);
      }
    }
  }

  // ----- contents change only when they may

  datatype Input = Input(csn: bool, sck: bool, dat: nat)

  /** A call that completes a program or erase command while the write-enable latch is set and no write is in progress. */
  predicate Accepts(f: Flash, i: Input) {
    var g := Tick(f);
    && !f.halted && !i.csn && !i.sck && f.lastSck && g.mode == Spi && g.count == 7 && Writable(g.flags)
    && (g.ireg * 2 + i.dat % 2) % 256 in {0x02, 0x32, 0xc7, 0xd8}
  }

  lemma DecodeEnters(f: Flash)
    requires Writes(Decode(f).state) && !Writes(f.state)
    ensures Writable(f.flags) && f.ireg % 256 in {0x02, 0x32, 0xc7, 0xd8}
  {
  }

  lemma DataStays(f: Flash)
    requires Sized(f)
    ensures Writes(Data(f).state) <==> Writes(f.state)
  {
  }

  lemma CommandsComeInSpi(f: Flash, dat: nat)
    requires Agrees(f) && f.state != QuadReadIdle && f.state != DualReadIdle && Shifted(f, dat).count == 8
    ensures f.mode == Spi && f.count == 7 && Shifted(f, dat).ireg == f.ireg * 2 + dat % 2
  {
  }

  lemma ProcessEnters(s: Flash)
    requires Sized(s) && Writes(Process(s).state) && !Writes(s.state)
    ensures s.state != QuadReadIdle && s.state != DualReadIdle && s.count == 8
    ensures Writable(s.flags) && s.ireg % 256 in {0x02, 0x32, 0xc7, 0xd8}
  {
    if s.state != QuadReadIdle && s.state != DualReadIdle {
      if s.count == 8 {
        DecodeEnters(s);
      } else if s.count % 8 == 0 && s.count != 0 {
        DataStays(s);
      }
    }
  }

  lemma EdgeEnters(f: Flash, dat: nat)
    requires Sound(f) && Writes(Edge(f, dat).state) && !Writes(f.state)
    ensures f.mode == Spi && f.count == 7 && Writable(f.flags) && (f.ireg * 2 + dat % 2) % 256 in {0x02, 0x32, 0xc7, 0xd8}
  {
    ProcessEnters(Shifted(f, dat));
    CommandsComeInSpi(f, dat);
  }

  lemma DeselectLeaves(f: Flash)
    requires Sized(f)
    ensures !Writes(Deselect(f).state)
  {
  }

  lemma WritingStaysSelected(f: Flash, i: Input)
    requires Sized(f) && Writes(Call(f, i.csn, i.sck, i.dat).state) && !Call(f, i.csn, i.sck, i.dat).halted
    ensures !i.csn && !f.halted
  {
    if i.csn && !f.halted {
      DeselectLeaves(Tick(f));
    }
  }

  /** A device starts to program or erase only on accepting the command. */
  lemma CallEnters(f: Flash, i: Input)
    requires Sound(f) && Writes(Call(f, i.csn, i.sck, i.dat).state) && !Writes(f.state)
    ensures Accepts(f, i)
  {
    if i.csn {
      DeselectLeaves(Tick(f));
    } else {
      OnlyEdgesEnter(f, i);
      EdgeAccepted(f, i, Edge(Tick(f), i.dat));
    }
  }

  lemma EdgeAccepted(f: Flash, i: Input, g: Flash)
    requires Sound(f) && !f.halted && !i.csn && !i.sck && f.lastSck
    requires g == Edge(Tick(f), i.dat) && Writes(g.state) && !Writes(f.state)
    ensures Accepts(f, i)
  {
    TickKeepsSound(f);
    EdgeEnters(Tick(f), i.dat);
    EdgeAccepts(f, i);
  }

  lemma OnlyEdgesEnter(f: Flash, i: Input)
    requires Sized(f) && !i.csn && Call(f, i.csn, i.sck, i.dat).state != f.state
    ensures f.lastSck && !i.sck && !f.halted && Call(f, i.csn, i.sck, i.dat) == Edge(Tick(f), i.dat)
  {
  }

  lemma EdgeAccepts(f: Flash, i: Input)
    requires !f.halted && !i.csn && !i.sck && f.lastSck && f.mode == Spi && f.count == 7 && Writable(Tick(f).flags)
    requires (f.ireg * 2 + i.dat % 2) % 256 in {0x02, 0x32, 0xc7, 0xd8}
    ensures Accepts(f, i)
  {
  }

  /** The contents change only on deselection, and the device is then busy and write-protected. */
  lemma CallChanges(f: Flash, i: Input)
    requires Sound(f) && Call(f, i.csn, i.sck, i.dat).mem != f.mem
    ensures i.csn && Writes(f.state)
    ensures var g := Call(f, i.csn, i.sck, i.dat); g.flags.wip && !g.flags.wel && g.flags.timer > 0 && g.state == Idle
  {
  }

  /** A program clears bits, and sets none. */
  lemma ProgrammingOnlyClears(mem: seq<nat>, base: nat, pmem: seq<nat>, j: nat, k: nat)
    requires |pmem| == PAGE && j < |mem| && Bit(Programmed(mem, base, pmem)[j], k)
    ensures Bit(mem[j], k)
  {
    if base <= j < base + PAGE {
      BitOfAnd(mem[j], pmem[j - base], k);
    }
  }

  /** No call but the end of an erase sets a bit. */
  lemma OnlyErasesSetBits(f: Flash, i: Input, j: nat, k: nat)
    requires Sound(f) && f.state != SectorErase && f.state != BulkErase && j < MEMBYTES
    requires Bit(Call(f, i.csn, i.sck, i.dat).mem[j], k)
    ensures Bit(f.mem[j], k)
  {
    var g := Call(f, i.csn, i.sck, i.dat);
    if g.mem != f.mem {
      CallChanges(f, i);
      assert g.mem == Programmed(f.mem, f.addr / PAGE * PAGE, f.pmem);
      ProgrammingOnlyClears(f.mem, f.addr / PAGE * PAGE, f.pmem, j, k);
    }
  }

  function Run(f: Flash, ins: seq<Input>): (g: Flash)
    requires Sized(f)
    ensures Sized(g)
    decreases |ins|
  {
    if ins == [] then f
    else
      var i := ins[|ins| - 1];
      Call(Run(f, ins[..|ins| - 1]), i.csn, i.sck, i.dat)
  }

  /** The device `k` calls into a run. */
  function RunTo(f: Flash, ins: seq<Input>, k: nat): (g: Flash)
    requires Sized(f) && k <= |ins|
    ensures Sized(g)
  {
    Run(f, ins[..k])
  }

  /** A run without the excluded command. */
  ghost predicate Clean(f: Flash, ins: seq<Input>)
    requires Sized(f)
  {
    forall k | 0 <= k < |ins| :: !Excluded(RunTo(f, ins, k), ins[k].csn, ins[k].sck, ins[k].dat)
  }

  lemma {:induction false} RunKeepsSound(f: Flash, ins: seq<Input>)
    requires Sound(f) && Clean(f, ins)
    ensures Sound(Run(f, ins))
    decreases |ins|
  {
    if ins != [] {
      var n := |ins| - 1;
      CleanPrefix(f, ins, n);
      RunKeepsSound(f, ins[..n]);
      CallKeepsSound(Run(f, ins[..n]), ins[n].csn, ins[n].sck, ins[n].dat);
    }
  }

  lemma CleanPrefix(f: Flash, ins: seq<Input>, n: nat)
    requires Sized(f) && Clean(f, ins) && n <= |ins|
    ensures Clean(f, ins[..n])
  {
    forall k | 0 <= k < n
      ensures !Excluded(RunTo(f, ins[..n], k), ins[k].csn, ins[k].sck, ins[k].dat)
    {
      assert ins[..n][..k] == ins[..k];
    }
  }

  /** A program or erase command accepted at call `j` of a run, with the device selected ever since. */
  ghost predicate AcceptedAt(f: Flash, ins: seq<Input>, j: nat)
    requires Sized(f)
  {
    j < |ins| && Accepts(RunTo(f, ins, j), ins[j]) && forall i | j <= i < |ins| :: !ins[i].csn
  }

  lemma {:induction false} WritingWasAccepted(f: Flash, ins: seq<Input>) returns (j: nat)
    requires Sound(f) && Clean(f, ins) && !Writes(f.state)
    requires Writes(Run(f, ins).state) && !Run(f, ins).halted
    ensures AcceptedAt(f, ins, j)
    decreases |ins|
  {
    var n := |ins| - 1;
    var before := Run(f, ins[..n]);
    CleanPrefix(f, ins, n);
    RunKeepsSound(f, ins[..n]);
    LastCall(before, ins[n], Run(f, ins));
    if Writes(before.state) {
      j := WritingWasAccepted(f, ins[..n]);
      AcceptedLater(f, ins, n, j);
    } else {
      AcceptedNow(f, ins, n, before);
      j := n;
    }
  }

  lemma LastCall(f: Flash, i: Input, g: Flash)
    requires Sound(f) && g == Call(f, i.csn, i.sck, i.dat) && Writes(g.state) && !g.halted
    ensures !i.csn && !f.halted && (!Writes(f.state) ==> Accepts(f, i))
  {
    WritingStaysSelected(f, i);
    if !Writes(f.state) {
      CallEnters(f, i);
    }
  }

  lemma AcceptedNow(f: Flash, ins: seq<Input>, n: nat, g: Flash)
    requires Sized(f) && |ins| == n + 1 && !ins[n].csn && g == RunTo(f, ins, n) && Accepts(g, ins[n])
    ensures AcceptedAt(f, ins, n)
  {
  }

  lemma AcceptedLater(f: Flash, ins: seq<Input>, n: nat, j: nat)
    requires Sized(f) && |ins| == n + 1 && AcceptedAt(f, ins[..n], j) && !ins[n].csn
    ensures AcceptedAt(f, ins, j)
  {
    assert ins[..n][..j] == ins[..j];
    forall i | j <= i < |ins|
      ensures !ins[i].csn
    {
      if i < n {
        assert ins[..n][i] == ins[i];
      }
    }
  }

  /**
   * Over every run, the contents change only at a deselection that ends a program or erase which
   * was accepted, in the same selection, with the write-enable latch set and no write in progress;
   * and the device is busy and write-protected afterwards.
   */
  lemma ContentsChangeOnlyWhenAccepted(f: Flash, ins: seq<Input>, i: Input) returns (j: nat)
    requires Sound(f) && Clean(f, ins) && !Writes(f.state)
    requires Run(f, ins + [i]).mem != Run(f, ins).mem
    ensures i.csn && AcceptedAt(f, ins, j)
    ensures var g := Run(f, ins + [i]); g.flags.wip && !g.flags.wel && g.flags.timer > 0
  {
    var before := Run(f, ins);
    assert (ins + [i])[..|ins|] == ins;
    assert Run(f, ins + [i]) == Call(before, i.csn, i.sck, i.dat);
    RunKeepsSound(f, ins);
    CallChanges(before, i);
    j := WritingWasAccepted(f, ins);
  }
}
