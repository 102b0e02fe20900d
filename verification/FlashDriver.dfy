/**
 * The flash driver: it skips what is already there, programs where clearing bits is enough, erases
 * where it is not, and clips its work to sectors and pages.
 */
module FlashDriver {
  import opened Words
  import opened ByteSwap
  import opened FlashSim
  import opened FlashPort
  import opened FlashWrite

  const FLASHBASE := 0x100_0000
  const NPAGES := 256

  /** What a call comes to; the simulator can stop before it returns. */
  datatype Outcome = Returned(ok: bool) | Stopped

  // ----- what a write is to do

  /** Clearing bits turns `have` into `want`. */
  predicate CanProgram(have: nat, want: nat) {
    And(have, want) == want
  }

  /** Whether some byte of `have` cannot be programmed to what `want` holds there. */
  ghost predicate NeedsErase(have: seq<nat>, want: seq<nat>)
    requires |have| == |want|
  {
    exists i :: 0 <= i < |have| && !CanProgram(have[i], want[i])
  }

  /** Whether some byte of `data`, to go to `off`, needs its sector `s` erased first. */
  ghost predicate MustErase(mem: seq<nat>, off: nat, data: seq<nat>, s: nat)
    requires off + |data| <= |mem|
  {
    exists j :: off <= j < off + |data| && j / SECTOR == s && !CanProgram(mem[j], data[j - off])
  }

  /** The contents after `data` is written at `off`. */
  ghost function Written(mem: seq<nat>, off: nat, data: seq<nat>): (m: seq<nat>)
    requires off + |data| <= |mem|
    ensures |m| == |mem|
  {
    WrittenTo(mem, off, data, |mem|)
  }

  /** The same, up to address `end`. */
  ghost function WrittenTo(mem: seq<nat>, off: nat, data: seq<nat>, end: nat): (m: seq<nat>)
    requires off + |data| <= |mem|
    ensures |m| == |mem|
  {
    seq(|mem|, j requires 0 <= j < |mem| => if j < end then ByteWritten(mem, off, data, j) else mem[j])
  }

  ghost function ByteWritten(mem: seq<nat>, off: nat, data: seq<nat>, j: nat): nat
    requires off + |data| <= |mem| && j < |mem|
  {
    if off <= j < off + |data| then data[j - off] else if MustErase(mem, off, data, j / SECTOR) then 0xff else mem[j]
  }

  /** Whether a write needs an erase that the simulator does not let through. */
  ghost predicate Stops(mem: seq<nat>, off: nat, data: seq<nat>)
    requires off + |data| <= |mem|
  {
    exists j :: off <= j < off + |data| && j >= 0x40_0000 && !CanProgram(mem[j], data[j - off])
  }

  /** For bytes that is: no bit of `want` is set that is clear in `have`. */
  lemma ProgramSetsNoBit(have: nat, want: nat)
    requires have < 256 && want < 256
    ensures CanProgram(have, want) <==> forall k: nat | k < 8 :: Bit(want, k) ==> Bit(have, k)
  {
    forall k: nat
      ensures Bit(And(have, want), k) == (Bit(have, k) && Bit(want, k))
    {
      BitOfAnd(have, want, k);
    }
    if forall k: nat | k < 8 :: Bit(want, k) ==> Bit(have, k) {
      Pow2Words();
      AndBelow(have, want);
      BitsDetermine(And(have, want), want, 8);
    }
  }

  lemma AndIdempotent(x: nat)
    ensures And(x, x) == x
  {
    if x > 0 {
      AndIdempotent(x / 2);
    }
  }

  /** Any byte can be programmed over a blank one. */
  lemma BlankCanProgram(d: nat)
    requires d < 256
    ensures CanProgram(0xff, d)
  {
    AndBlank(d);
    AndCommutes(d, 0xff);
  }

  /**
   * What the caller of `write` may rely on: the data is in place; outside the sectors it touches
   * nothing changed; inside them every other byte is as it was, or blank.
   */
  lemma WrittenIsData(mem: seq<nat>, off: nat, data: seq<nat>)
    requires off + |data| <= |mem|
    ensures var m := Written(mem, off, data);
            && m[off..off + |data|] == data
            && (forall j | 0 <= j < |mem| && (data == [] || !(off / SECTOR <= j / SECTOR <= (off + |data| - 1) / SECTOR)) ::
                  m[j] == mem[j])
            && (forall j | 0 <= j < |mem| && !(off <= j < off + |data|) :: m[j] == mem[j] || m[j] == 0xff)
  {
  }

  /** Some byte of the data, at an address from `lo` to before `hi`, sets a bit that the flash has clear. */
  ghost predicate SetsBit(mem: seq<nat>, off: nat, data: seq<nat>, lo: nat, hi: nat)
    requires off + |data| <= |mem|
  {
    exists i, k: nat :: 0 <= i < |data| && k < 8 && lo <= off + i < hi && Bit(data[i], k) && !Bit(mem[off + i], k)
  }

  /**
   * The same, bit by bit and with nothing left open: a byte beside the data is blank afterwards if
   * the data sets a bit in its 64 kB sector, and unchanged otherwise; and the simulator stops on a
   * write exactly if the data sets a bit beyond the first four megabytes.
   */
  lemma WrittenInBits(mem: seq<nat>, off: nat, data: seq<nat>)
    requires off + |data| <= |mem| && Bytes(mem) && Bytes(data)
    ensures forall j | 0 <= j < |mem| ::
              Written(mem, off, data)[j]
              == if off <= j < off + |data| then data[j - off]
                 else if SetsBit(mem, off, data, j / 65536 * 65536, j / 65536 * 65536 + 65536) then 0xff
                 else mem[j]
    ensures Stops(mem, off, data) <==> SetsBit(mem, off, data, 0x40_0000, |mem|)
  {
    forall j | 0 <= j < |mem|
      ensures MustErase(mem, off, data, j / SECTOR)
         <==> SetsBit(mem, off, data, j / 65536 * 65536, j / 65536 * 65536 + 65536)
    {
      NeedInBits(mem, off, data, j / 65536 * 65536);
    }
    StopInBits(mem, off, data);
  }

  lemma NeedInBits(mem: seq<nat>, off: nat, data: seq<nat>, so: nat)
    requires off + |data| <= |mem| && Bytes(mem) && Bytes(data) && so % 65536 == 0
    ensures MustErase(mem, off, data, so / 65536) <==> SetsBit(mem, off, data, so, so + 65536)
  {
    if MustErase(mem, off, data, so / 65536) {
      var j :| off <= j < off + |data| && j / SECTOR == so / 65536 && !CanProgram(mem[j], data[j - off]);
      InSector(so, j);
      ProgramSetsNoBit(mem[j], data[j - off]);
      var k: nat :| k < 8 && Bit(data[j - off], k) && !Bit(mem[j], k);
      assert off + (j - off) == j;
    }
    if i, k: nat :| 0 <= i < |data| && k < 8 && so <= off + i < so + 65536 && Bit(data[i], k) && !Bit(mem[off + i], k) {
      InSector(so, off + i);
      ProgramSetsNoBit(mem[off + i], data[i]);
      assert off <= off + i && data[off + i - off] == data[i];
    }
  }

  lemma StopInBits(mem: seq<nat>, off: nat, data: seq<nat>)
    requires off + |data| <= |mem| && Bytes(mem) && Bytes(data)
    ensures Stops(mem, off, data) <==> SetsBit(mem, off, data, 0x40_0000, |mem|)
  {
    if Stops(mem, off, data) {
      var j :| off <= j < off + |data| && j >= 0x40_0000 && !CanProgram(mem[j], data[j - off]);
      ProgramSetsNoBit(mem[j], data[j - off]);
      var k: nat :| k < 8 && Bit(data[j - off], k) && !Bit(mem[j], k);
      assert off + (j - off) == j;
    }
    if i, k: nat :| 0 <= i < |data| && k < 8 && 0x40_0000 <= off + i < |mem| && Bit(data[i], k) && !Bit(mem[off + i], k) {
      ProgramSetsNoBit(mem[off + i], data[i]);
      assert off <= off + i && data[off + i - off] == data[i];
    }
  }

  /** For instance, data at the processor's reset address, over contents that must be erased first. */
  lemma ResetAddressStops()
    ensures Stops(seq(MEMBYTES, j => 0), 0x140_0000 - FLASHBASE, [1, 2, 3, 4])
  {
    var mem: seq<nat> := seq(MEMBYTES, j => 0);
    assert !CanProgram(mem[0x40_0000], [1, 2, 3, 4][0]);
  }

  /** The contents with `data` in place between `lo` and `hi`. */
  function Filled(mem: seq<nat>, off: nat, data: seq<nat>, lo: nat, hi: nat): (m: seq<nat>)
    requires off <= lo && hi <= off + |data| <= |mem|
    ensures |m| == |mem|
  {
    seq(|mem|, j requires 0 <= j < |mem| => if lo <= j < hi then data[j - off] else mem[j])
  }

  /** Programming the next stretch fills it, where that needs bits cleared only. */
  lemma FillsMore(mem: seq<nat>, off: nat, data: seq<nat>, lo: nat, p: nat, q: nat)
    requires off <= lo <= p <= q <= off + |data| <= |mem|
    requires Clearing(mem, off, data, p, q)
    ensures ProgramAt(Filled(mem, off, data, lo, p), p, data[p - off..q - off]) == Filled(mem, off, data, lo, q)
    ensures Filled(mem, off, data, lo, q)[p..q] == data[p - off..q - off]
  {
    var before, after := Filled(mem, off, data, lo, p), Filled(mem, off, data, lo, q);
    var done := ProgramAt(before, p, data[p - off..q - off]);
    forall j | 0 <= j < |mem|
      ensures done[j] == after[j]
    {
      if p <= j < q {
        assert CanProgram(mem[j], data[j - off]);
      }
    }
  }

  lemma ShareFills(mem: seq<nat>, off: nat, data: seq<nat>, lo: nat, at: nat, part: seq<nat>)
    requires off <= lo <= at && at + |part| <= off + |data| <= |mem| && part == data[at - off..at - off + |part|]
    requires Clearing(mem, off, data, at, at + |part|)
    ensures var after := Filled(mem, off, data, lo, at + |part|);
            ProgramAt(Filled(mem, off, data, lo, at), at, part) == after && after[at..at + |part|] == part
  {
    FillsMore(mem, off, data, lo, at, at + |part|);
    assert at - off + |part| == at + |part| - off;
  }

  class FlashDriver {
    /** The device at the far end of the bus, and what its other data lines carry. */
    var flash: Flash
    const lines: nat

    constructor (f: Flash, other: nat)
      ensures flash == f
    {
      flash, lines := f, other;
    }

    method ReadI(addr: nat, n: nat) returns (words: seq<nat>)
      requires Online(flash) && FLASHBASE <= addr && addr - FLASHBASE + 4 * n <= MEMBYTES
      modifies this
      ensures Online(flash) && flash.mem == old(flash.mem)
      ensures words == WordsOf(flash.mem[addr - FLASHBASE..addr - FLASHBASE + 4 * n])
    {
      var g, bytes := ReadBytes(flash, addr - FLASHBASE, 4 * n, lines);
      flash := g;
      words := WordsOf(bytes);
    }

    /** `erase_sector`; an erase beyond the first four megabytes stops the simulator. */
    method EraseSector(sector: nat, verify: bool) returns (r: Outcome)
      requires Online(flash) && FLASHBASE <= sector < FLASHBASE + MEMBYTES && sector % SECTOR == 0
      modifies this
      ensures var off := sector - FLASHBASE;
              if off >= 0x40_0000 then r == Stopped
              else r == Returned(true) && Online(flash) && flash.mem == Erased(old(flash.mem), off, SECTOR)
    {
      SectorAddress(sector);
      var wiped := Wipe(sector % MEMBYTES);
      if !wiped {
        return Stopped;
      }
      var ok := true;
      if verify {
        ErasedIsBlank(old(flash.mem), sector - FLASHBASE);
        ok := VerifyErase(sector);
      }
      return Returned(ok);
    }

    /** The commands of an erase, unless the simulator stops on them. */
    method Wipe(flashaddr: nat) returns (wiped: bool)
      requires Online(flash) && flashaddr + SECTOR <= MEMBYTES && flashaddr % SECTOR == 0
      modifies this
      ensures wiped == (flashaddr < 0x40_0000)
      ensures wiped ==> Online(flash) && flash.mem == Erased(old(flash.mem), flashaddr, SECTOR)
    {
      var f := FlashPort.TakeOffline(flash, lines);
      f := EnableWrites(f, lines);
      f := Erase(f, flashaddr, lines);
      flash := f;
      if f.halted {
        return false;
      }
      f := Wait(f, lines);
      flash := PlaceOnline(f, lines);
      return true;
    }

    /** The check of an erase: it passes exactly when the whole sector is blank. */
    method VerifyErase(sector: nat) returns (ok: bool)
      requires Online(flash) && FLASHBASE <= sector && sector - FLASHBASE + SECTOR <= MEMBYTES
      modifies this
      ensures Online(flash) && flash.mem == old(flash.mem)
      ensures ok == IsBlank(flash.mem[sector - FLASHBASE..sector - FLASHBASE + SECTOR])
    {
      ghost var at := sector - FLASHBASE;
      var i := 0;
      while i < NPAGES
        invariant 0 <= i <= NPAGES && Online(flash) && flash.mem == old(flash.mem)
        invariant IsBlank(flash.mem[at..at + i * PAGE])
      {
        var page := ReadI(sector + i * PAGE, PAGE / 4);
        var blank := AllOnes(page);
        PageIsBlank(flash.mem, at, i * PAGE, page, blank);
        if !blank {
          return false;
        }
        i := i + 1;
      }
      return true;
    }

    /** The commands of a page program, on a device taken offline. */
    static method ProgramOffline(f: Flash, flashaddr: nat, data: seq<nat>, other: nat) returns (g: Flash)
      requires Offline(f) && flashaddr < MEMBYTES && flashaddr % PAGE + |data| <= PAGE && Bytes(data)
      ensures Online(g) && g.mem == ProgramAt(f.mem, flashaddr, data)
    {
      g := EnableWrites(f, other);
      g := Program(g, flashaddr, data, other);
      g := Wait(g, other);
      g := PlaceOnline(g, other);
    }

    /** `page_program`: what the data needs cleared is cleared; the check afterwards compares the words. */
    method PageProgram(addr: nat, data: seq<nat>, verify: bool) returns (ok: bool)
      requires Online(flash) && FLASHBASE <= addr && data != [] && |data| % 4 == 0 && Bytes(data)
      requires addr % PAGE + |data| <= PAGE && addr - FLASHBASE + |data| <= MEMBYTES
      modifies this
      ensures var off := addr - FLASHBASE;
              && Online(flash) && flash.mem == ProgramAt(old(flash.mem), off, data)
              && ok == (!verify || IsBlank(data) || flash.mem[off..off + |data|] == data)
    {
      var flashaddr := addr % MEMBYTES;
      FlashAddress(addr);
      var f := FlashPort.TakeOffline(flash, lines);
      var words, blank := InWords(data);
      if blank {
        ProgramBlankData(f.mem, flashaddr, data);
        flash := PlaceOnline(f, lines);
        return true;
      }
      flash := ProgramOffline(f, flashaddr, data, lines);
      ok := true;
      if verify {
        ok := VerifyWrite(addr, data, words);
      }
    }

    method VerifyWrite(addr: nat, data: seq<nat>, words: seq<nat>) returns (ok: bool)
      requires Online(flash) && FLASHBASE <= addr && |data| % 4 == 0 && Bytes(data) && words == WordsOf(data)
      requires addr - FLASHBASE + |data| <= MEMBYTES
      modifies this
      ensures Online(flash) && flash.mem == old(flash.mem)
      ensures ok == (flash.mem[addr - FLASHBASE..addr - FLASHBASE + |data|] == data)
    {
      var buf := ReadI(addr, |data| / 4);
      WordsDetermineBytes(flash.mem[addr - FLASHBASE..addr - FLASHBASE + |data|], data);
      ok := buf == words;
    }

    /** Data in words, and whether every one of them is all ones. */
    static method InWords(data: seq<nat>) returns (words: seq<nat>, blank: bool)
      requires |data| % 4 == 0 && Bytes(data)
      ensures words == WordsOf(data) && blank == IsBlank(data)
    {
      words := WordsOf(data);
      blank := AllOnes(words);
      BlankWords(data);
    }

    /** Whether every word of a page is all ones. */
    static method AllOnes(page: seq<nat>) returns (blank: bool)
      ensures blank <==> forall k | 0 <= k < |page| :: page[k] == 0xffff_ffff
    {
      var j := 0;
      while j < |page|
        invariant 0 <= j <= |page| && forall k | 0 <= k < j :: page[k] == 0xffff_ffff
      {
        if page[j] != 0xffff_ffff {
          return false;
        }
        j := j + 1;
      }
      return true;
    }

    /** How much of the data up to `end` goes into the page of `start`, and where the next page begins. */
    static method PageShare(start: nat, end: nat, ghost s: nat) returns (len: nat, next: nat)
      requires start < end && start % 4 == 0 && end % 4 == 0 && s % SECTOR == 0 && s <= start < s + SECTOR
      ensures 0 < len && len % 4 == 0 && start % PAGE + len <= PAGE && start + len <= end && start + len <= s + SECTOR
      ensures next % 4 == 0 && start + len <= next <= s + SECTOR && (start + len == next || start + len == end)
    {
      len := end - start;
      if (start + len - 1) / PAGE != start / PAGE {
        len := (start + PAGE) / PAGE * PAGE - start;
      }
      next := (start + PAGE) / PAGE * PAGE;
      PageClips(start, end, len, s);
    }

    /** The data for part of a page, where everything from `lo` up to it is written already. */
    method ProgramShare(p: nat, len: nat, addr: nat, data: seq<nat>, verify: bool,
                        ghost mem: seq<nat>, ghost off: nat, ghost lo: nat, ghost at: nat)
      returns (ok: bool)
      requires Online(flash) && Bytes(data) && addr == FLASHBASE + off && p == FLASHBASE + at
      requires off <= lo <= at && at + len <= off + |data| <= |mem| == MEMBYTES
      requires 0 < len && len % 4 == 0 && p % PAGE + len <= PAGE
      requires flash.mem == Filled(mem, off, data, lo, at) && Clearing(mem, off, data, at, at + len)
      modifies this
      ensures ok && Online(flash) && flash.mem == Filled(mem, off, data, lo, at + len)
    {
      var part := data[p - addr..p - addr + len];
      ShareFills(mem, off, data, lo, at, part);
      ok := PageProgram(p, part, verify);
    }

    /** The pages of a sector, from `newv` on; clearing bits is enough for all of them. */
    method ProgramPages(newv: nat, s: nat, addr: nat, data: seq<nat>, verify: bool, ghost off: nat, ghost lo: nat, ghost hi: nat)
      returns (ok: bool)
      requires Online(flash) && Bytes(data) && addr == FLASHBASE + off && newv == FLASHBASE + lo && off + |data| <= MEMBYTES
      requires newv % 4 == 0 && addr % 4 == 0 && |data| % 4 == 0 && s % SECTOR == 0 && s <= newv < s + SECTOR
      requires off <= lo < hi && FLASHBASE + hi == if addr + |data| < s + SECTOR then addr + |data| else s + SECTOR
      requires Clearing(flash.mem, off, data, lo, hi)
      modifies this
      ensures ok && Online(flash) && flash.mem == Filled(old(flash.mem), off, data, lo, hi)
    {
      var end := addr + |data|;
      SumAligned(addr, |data|);
      ghost var mem, at := flash.mem, lo;
      var p := newv;
      while p < s + SECTOR && p < end
        invariant lo <= at <= hi && p % 4 == 0 && (p < FLASHBASE + hi ==> p == FLASHBASE + at)
        invariant p >= FLASHBASE + hi ==> at == hi
        invariant Online(flash) && flash.mem == Filled(mem, off, data, lo, at)
        decreases FLASHBASE + hi + PAGE - p
      {
        var len, next := PageShare(p, end, s);
        var good := ProgramShare(p, len, addr, data, verify, mem, off, lo, at);
        if !good {
          return false;
        }
        at := at + len;
        p := next;
      }
      return true;
    }

    /** Whether a stretch must be erased, and where its first difference lies: 0 stands for nowhere. */
    static method Compare(sbuf: seq<nat>, want: seq<nat>, base: nat) returns (needErase: bool, newv: nat)
      requires |sbuf| == |want| && base > 0 && base % 4 == 0
      ensures needErase == NeedsErase(sbuf, want)
      ensures newv == 0 ==> !needErase && sbuf == want
      ensures newv != 0 ==> base <= newv < base + |sbuf| && newv % 4 == 0
      ensures newv != 0 && !needErase ==> sbuf[..newv - base] == want[..newv - base]
    {
      needErase, newv := false, 0;
      var i := 0;
      while i < |sbuf|
        invariant 0 <= i <= |sbuf|
        invariant forall k | 0 <= k < i :: CanProgram(sbuf[k], want[k])
        invariant newv == 0 ==> sbuf[..i] == want[..i]
        invariant newv != 0 ==> base <= newv < base + i && newv % 4 == 0 && sbuf[..newv - base] == want[..newv - base]
      {
        WordStart(base, i);
        if And(sbuf[i], want[i]) != want[i] {
          needErase, newv := true, i / 4 * 4 + base;
          return;
        }
        if sbuf[i] != want[i] && newv == 0 {
          newv := i / 4 * 4 + base;
          Shorter(sbuf, want, i / 4 * 4, i);
        }
        i := i + 1;
      }
    }

    /** The addresses of a sector that the data covers. */
    static method Share(s: nat, addr: nat, n: nat) returns (base: nat, hi: nat)
      requires FLASHBASE <= addr && addr + n <= FLASHBASE + MEMBYTES && addr % 4 == 0 && n % 4 == 0
      requires s % SECTOR == 0 && FLASHBASE <= s && addr < s + SECTOR && (s <= addr || s < addr + n)
      ensures FLASHBASE <= addr <= base <= hi <= addr + n && s <= base < s + SECTOR
      ensures base % 4 == 0 && (hi - base) % 4 == 0
      ensures hi == if addr + n < s + SECTOR then addr + n else s + SECTOR
      ensures IsShare(addr - FLASHBASE, n, s - FLASHBASE, base - FLASHBASE, hi - FLASHBASE)
    {
      base := if addr > s then addr else s;
      hi := if addr + n > s + SECTOR then s + SECTOR else addr + n;
      Alignment(s);
      SumAligned(addr, n);
    }

    /** Words read, swapped and seen as bytes. */
    static method AsBytes(words: seq<nat>, ghost stretch: seq<nat>) returns (sbuf: seq<nat>)
      requires |stretch| % 4 == 0 && Bytes(stretch) && words == WordsOf(stretch)
      ensures sbuf == stretch
    {
      var swapped := SwapBuffer(words);
      SwappedBufferHoldsBytes(stretch, swapped);
      sbuf := HostView(swapped);
    }

    /** The flash between two addresses, as the host sees it. */
    method ReadBack(base: nat, hi: nat) returns (sbuf: seq<nat>)
      requires Online(flash) && FLASHBASE <= base <= hi <= FLASHBASE + MEMBYTES && (hi - base) % 4 == 0
      modifies this
      ensures Online(flash) && flash.mem == old(flash.mem) && sbuf == flash.mem[base - FLASHBASE..hi - FLASHBASE]
    {
      var words := ReadI(base, (hi - base) / 4);
      ghost var stretch := flash.mem[base - FLASHBASE..hi - FLASHBASE];
      assert words == WordsOf(stretch);
      sbuf := AsBytes(words, stretch);
    }

    /** The part of a sector's work that changes the flash, once it is known what that is. */
    method ChangeSector(s: nat, addr: nat, data: seq<nat>, verify: bool, needErase: bool, from: nat, base: nat,
                        ghost off: nat, ghost so: nat, ghost lo: nat, ghost start: nat, ghost end: nat)
      returns (r: Outcome)
      requires Online(flash) && Bytes(data) && off + |data| <= MEMBYTES
      requires addr == FLASHBASE + off && s == FLASHBASE + so && base == FLASHBASE + lo && from == FLASHBASE + start
      requires addr % 4 == 0 && |data| % 4 == 0 && s % SECTOR == 0 && base % 4 == 0 && from % 4 == 0
      requires off <= lo <= start < end && IsShare(off, |data|, so, lo, end)
      requires !needErase ==> Clearing(flash.mem, off, data, start, end)
      modifies this
      ensures r == Stopped <==> needErase && so >= 0x40_0000
      ensures r != Stopped ==> r == Returned(true) && Online(flash)
      ensures r != Stopped ==>
                flash.mem == Filled(if needErase then Erased(old(flash.mem), so, SECTOR) else old(flash.mem), off, data,
                                    if needErase then lo else start, end)
    {
      ShareEnds(s, so, addr, off, |data|, lo, end);
      var newv := from;
      ghost var begin := start;
      if needErase {
        ErasedCanProgram(flash.mem, off, data, so, lo, end);
        SectorInFlash(s);
        var erased := EraseSector(s, verify);
        if erased != Returned(true) {
          return erased;
        }
        newv, begin := base, lo;
      }
      var ok := ProgramPages(newv, s, addr, data, verify, off, begin, end);
      return Returned(ok);
    }

    /** A sector brought to what it must hold, from what was found out about it. */
    method FillSector(s: nat, addr: nat, data: seq<nat>, verify: bool, needErase: bool, from: nat, base: nat,
                      ghost off: nat, ghost so: nat, ghost lo: nat, ghost start: nat, ghost end: nat)
      returns (r: Outcome)
      requires Online(flash) && Bytes(data) && off + |data| <= MEMBYTES
      requires addr == FLASHBASE + off && s == FLASHBASE + so && base == FLASHBASE + lo && from == FLASHBASE + start
      requires off <= lo <= start < end
      requires addr % 4 == 0 && |data| % 4 == 0 && s % SECTOR == 0 && base % 4 == 0 && from % 4 == 0
      requires IsShare(off, |data|, so, lo, end) && Planned(flash.mem, off, data, so, lo, end, needErase, start)
      modifies this
      ensures r == Stopped <==> needErase && so >= 0x40_0000
      ensures r != Stopped ==> r == Returned(true) && Online(flash)
      ensures r != Stopped ==> flash.mem == SectorWritten(old(flash.mem), off, data, so)
    {
      ghost var mem := flash.mem;
      ghost var before := if needErase then Erased(mem, so, SECTOR) else mem;
      SectorFilled(mem, off, data, so, lo, end, needErase, if needErase then lo else start, before);
      r := ChangeSector(s, addr, data, verify, needErase, from, base, off, so, lo, start, end);
    }

    /** What a sector needs, from a comparison of what it holds with its share of the data. */
    static method Plan(sbuf: seq<nat>, addr: nat, data: seq<nat>, base: nat, hi: nat,
                       ghost mem: seq<nat>, ghost off: nat, ghost so: nat, ghost lo: nat, ghost end: nat)
      returns (needErase: bool, newv: nat, ghost start: nat)
      requires off <= lo <= end <= off + |data| <= |mem| && base % 4 == 0 && sbuf == mem[lo..end]
      requires addr == FLASHBASE + off && base == FLASHBASE + lo && hi == FLASHBASE + end
      requires IsShare(off, |data|, so, lo, end)
      ensures needErase == NeedsErase(sbuf, data[base - addr..hi - addr])
      ensures lo <= start <= end && Planned(mem, off, data, so, lo, end, needErase, start)
      ensures newv == 0 ==> !needErase && start == end
      ensures newv != 0 ==> start < end && newv == FLASHBASE + start && newv % 4 == 0
    {
      var want := data[base - addr..hi - addr];
      assert want == data[lo - off..end - off];
      needErase, newv := Compare(sbuf, want, base);
      start := PlanFollows(mem, off, data, so, lo, end, sbuf, want, base, needErase, newv);
    }

    /** A sector's share of the data looked at, and what it needs. */
    method Examine(addr: nat, data: seq<nat>, base: nat, hi: nat, ghost off: nat, ghost so: nat, ghost lo: nat, ghost end: nat)
      returns (needErase: bool, newv: nat, ghost start: nat)
      requires Online(flash) && off <= lo <= end <= off + |data| <= MEMBYTES && base % 4 == 0 && (hi - base) % 4 == 0
      requires addr == FLASHBASE + off && base == FLASHBASE + lo && hi == FLASHBASE + end
      requires IsShare(off, |data|, so, lo, end)
      modifies this
      ensures Online(flash) && flash.mem == old(flash.mem)
      ensures lo <= start <= end && Planned(flash.mem, off, data, so, lo, end, needErase, start)
      ensures newv == 0 ==> !needErase && start == end
      ensures newv != 0 ==> start < end && newv == FLASHBASE + start && newv % 4 == 0
    {
      var sbuf := ReadBack(base, hi);
      needErase, newv, start := Plan(sbuf, addr, data, base, hi, flash.mem, off, so, lo, end);
    }

    /** The work of `write` in one sector. */
    method WriteSector(s: nat, addr: nat, data: seq<nat>, verify: bool, ghost off: nat, ghost so: nat) returns (r: Outcome)
      requires Online(flash) && Bytes(data) && addr == FLASHBASE + off && off + |data| <= MEMBYTES && s == FLASHBASE + so
      requires addr % 4 == 0 && |data| % 4 == 0 && s % SECTOR == 0
      requires addr < s + SECTOR && (s <= addr || s < addr + |data|)
      modifies this
      ensures r == Stopped <==> so >= 0x40_0000 && MustErase(old(flash.mem), off, data, so / SECTOR)
      ensures r != Stopped ==> r == Returned(true) && Online(flash)
      ensures r != Stopped ==> flash.mem == SectorWritten(old(flash.mem), off, data, so)
    {
      var base, hi := Share(s, addr, |data|);
      ghost var lo, end := base - FLASHBASE, hi - FLASHBASE;
      var needErase, newv;
      ghost var start;
      needErase, newv, start := Examine(addr, data, base, hi, off, so, lo, end);
      if newv == 0 {
        PlannedNothing(flash.mem, off, data, so, lo, end);
        return Returned(true);
      }
      r := FillSector(s, addr, data, verify, needErase, newv, base, off, so, lo, start, end);
    }

    /** The sectors of a write, one after the other. */
    method WriteSectors(addr: nat, data: seq<nat>, verify: bool, ghost off: nat) returns (r: Outcome)
      requires Online(flash) && Bytes(data) && addr == FLASHBASE + off && off + |data| <= MEMBYTES
      requires addr % 4 == 0 && |data| % 4 == 0
      modifies this
      ensures r == Stopped <==> Stops(old(flash.mem), off, data)
      ensures r != Stopped ==> r == Returned(true) && Online(flash) && flash.mem == Written(old(flash.mem), off, data)
    {
      ghost var mem := flash.mem;
      var s := addr / SECTOR * SECTOR;
      var end := (addr + |data| + SECTOR - 1) / SECTOR * SECTOR;
      SectorBounds(addr, |data|, s, end);
      ghost var so := s - FLASHBASE;
      NothingBefore(mem, off, data, so);
      r := Returned(true);
      while s < end
        invariant s == FLASHBASE + so && s % SECTOR == 0 && addr < s + SECTOR && (s <= addr || s <= end)
        invariant Online(flash) && r == Returned(true)
        invariant flash.mem == WrittenTo(mem, off, data, so)
        invariant Passes(mem, off, data, so)
      {
        SectorBegins(addr, |data|, s, end);
        r := OneSector(s, addr, data, verify, mem, off, so);
        if r == Stopped {
          return;
        }
        s := s + SECTOR;
        so := so + SECTOR;
      }
      NothingAfter(mem, off, data, so);
    }

    /** One turn: what was written up to a sector is written up to the next one. */
    method OneSector(s: nat, addr: nat, data: seq<nat>, verify: bool, ghost mem: seq<nat>, ghost off: nat, ghost so: nat)
      returns (r: Outcome)
      requires Online(flash) && Bytes(data) && addr == FLASHBASE + off && off + |data| <= MEMBYTES && s == FLASHBASE + so
      requires addr % 4 == 0 && |data| % 4 == 0 && s % SECTOR == 0
      requires addr < s + SECTOR && (s <= addr || s < addr + |data|)
      requires |mem| == MEMBYTES && flash.mem == WrittenTo(mem, off, data, so) && Passes(mem, off, data, so)
      modifies this
      ensures r == Stopped ==> Stops(mem, off, data)
      ensures r != Stopped ==> r == Returned(true) && Online(flash)
      ensures r != Stopped ==> flash.mem == WrittenTo(mem, off, data, so + SECTOR) && Passes(mem, off, data, so + SECTOR)
    {
      SectorUntouched(mem, off, data, so);
      r := WriteSector(s, addr, data, verify, off, so);
      SectorPasses(mem, off, data, so, r == Stopped);
    }

    /**
     * `write`. The simulator stops exactly when an erase is needed that it does not let through.
     * Otherwise the call returns true, and the flash holds the data, whatever it held before; it is
     * online again and write-protected.
     */
    method Write(addr: nat, data: seq<nat>, verify: bool) returns (r: Outcome)
      requires Online(flash) && Bytes(data) && FLASHBASE <= addr && addr + |data| <= FLASHBASE + MEMBYTES
      requires addr % 4 == 0 && |data| % 4 == 0
      modifies this
      ensures r == Stopped <==> Stops(old(flash.mem), addr - FLASHBASE, data)
      ensures r != Stopped ==>
                && r == Returned(true) && Online(flash) && !flash.flags.wel
                && flash.mem == Written(old(flash.mem), addr - FLASHBASE, data)
      ensures r == Stopped <==> SetsBit(old(flash.mem), addr - FLASHBASE, data, 0x40_0000, MEMBYTES)
      ensures r != Stopped ==> forall j | 0 <= j < MEMBYTES ::
                flash.mem[j]
                == if FLASHBASE + j >= addr && FLASHBASE + j < addr + |data| then data[FLASHBASE + j - addr]
                   else if SetsBit(old(flash.mem), addr - FLASHBASE, data, j / 65536 * 65536, j / 65536 * 65536 + 65536) then 0xff
                   else old(flash.mem)[j]
    {
      WrittenInBits(flash.mem, addr - FLASHBASE, data);
      r := WriteAll(addr, data, verify, addr - FLASHBASE);
    }

    /** All the sectors, and the end of the write if it comes to that. */
    method WriteAll(addr: nat, data: seq<nat>, verify: bool, ghost off: nat) returns (r: Outcome)
      requires Online(flash) && Bytes(data) && addr == FLASHBASE + off && off + |data| <= MEMBYTES
      requires addr % 4 == 0 && |data| % 4 == 0
      modifies this
      ensures r == Stopped <==> Stops(old(flash.mem), off, data)
      ensures r != Stopped ==> r == Returned(true) && Online(flash) && !flash.flags.wel
      ensures r != Stopped ==> flash.mem == Written(old(flash.mem), off, data)
    {
      r := WriteSectors(addr, data, verify, off);
      if r == Stopped {
        return;
      }
      Protect();
    }

    /** The end of a write: the device is write-protected again. */
    method Protect()
      requires Online(flash)
      modifies this
      ensures Online(flash) && !flash.flags.wel && flash.mem == old(flash.mem)
    {
      var f := FlashPort.TakeOffline(flash, lines);
      f := DisableWrites(f, lines);
      flash := PlaceOnline(f, lines);
    }
  }

  /** No erase that stops the simulator is needed for the data before `end`. */
  ghost predicate Passes(mem: seq<nat>, off: nat, data: seq<nat>, end: nat)
    requires off + |data| <= |mem|
  {
    forall j | off <= j < off + |data| && 0x40_0000 <= j < end :: CanProgram(mem[j], data[j - off])
  }

  lemma SectorBounds(addr: nat, n: nat, s: nat, end: nat)
    requires FLASHBASE <= addr && s == addr / SECTOR * SECTOR && end == (addr + n + SECTOR - 1) / SECTOR * SECTOR
    ensures s % SECTOR == 0 && end % SECTOR == 0 && FLASHBASE <= s <= addr < s + SECTOR && addr + n <= end
  {
  }

  lemma SectorBegins(addr: nat, n: nat, s: nat, end: nat)
    requires end == (addr + n + SECTOR - 1) / SECTOR * SECTOR && s % SECTOR == 0 && s < end
    ensures s <= addr || s < addr + n
  {
    assert s + SECTOR <= end by {
      assert s / SECTOR < end / SECTOR;
    }
  }

  lemma NothingBefore(mem: seq<nat>, off: nat, data: seq<nat>, so: nat)
    requires off + |data| <= |mem| && so % SECTOR == 0 && so <= off
    ensures WrittenTo(mem, off, data, so) == mem && Passes(mem, off, data, so)
  {
    forall j | 0 <= j < |mem| && j < so
      ensures ByteWritten(mem, off, data, j) == mem[j]
    {
      assert j / SECTOR < so / SECTOR <= off / SECTOR;
    }
  }

  lemma NothingAfter(mem: seq<nat>, off: nat, data: seq<nat>, so: nat)
    requires off + |data| <= |mem| && so % SECTOR == 0 && off + |data| <= so && Passes(mem, off, data, so)
    ensures WrittenTo(mem, off, data, so) == Written(mem, off, data) && !Stops(mem, off, data)
  {
    forall j | so <= j < |mem|
      ensures ByteWritten(mem, off, data, j) == mem[j]
    {
      assert forall k | off <= k < off + |data| :: k / SECTOR < so / SECTOR <= j / SECTOR;
    }
  }

  /** The work before a sector leaves what the sector needs as it was. */
  lemma SectorUntouched(mem: seq<nat>, off: nat, data: seq<nat>, so: nat)
    requires off + |data| <= |mem| && so % SECTOR == 0
    ensures var m := WrittenTo(mem, off, data, so);
            && (MustErase(m, off, data, so / SECTOR) <==> MustErase(mem, off, data, so / SECTOR))
            && SectorWritten(m, off, data, so) == WrittenTo(mem, off, data, so + SECTOR)
  {
    var m := WrittenTo(mem, off, data, so);
    forall j | 0 <= j < |mem| && j / SECTOR == so / SECTOR
      ensures m[j] == mem[j]
    {
      InSector(so, j);
    }
    var a, b := SectorWritten(m, off, data, so), WrittenTo(mem, off, data, so + SECTOR);
    forall j | 0 <= j < |mem|
      ensures a[j] == b[j]
    {
      InSector(so, j);
    }
  }

  lemma SectorPasses(mem: seq<nat>, off: nat, data: seq<nat>, so: nat, stopped: bool)
    requires off + |data| <= |mem| && so % SECTOR == 0 && Passes(mem, off, data, so)
    requires stopped <==> so >= 0x40_0000 && MustErase(mem, off, data, so / SECTOR)
    ensures if stopped then Stops(mem, off, data) else Passes(mem, off, data, so + SECTOR)
  {
    if stopped {
      var j :| off <= j < off + |data| && j / SECTOR == so / SECTOR && !CanProgram(mem[j], data[j - off]);
      InSector(so, j);
    } else {
      forall j | off <= j < off + |data| && 0x40_0000 <= j < so + SECTOR
        ensures CanProgram(mem[j], data[j - off])
      {
        InSector(so, j);
      }
    }
  }

  /** The contents agree with the data between `lo` and `from`. */
  predicate SameUpTo(mem: seq<nat>, off: nat, data: seq<nat>, lo: nat, from: nat)
    requires off <= lo <= from <= off + |data| <= |mem|
  {
    forall j | lo <= j < from :: mem[j] == data[j - off]
  }

  lemma SamePrefix(mem: seq<nat>, off: nat, data: seq<nat>, lo: nat, from: nat, hi: nat)
    requires off <= lo <= from <= hi <= off + |data| <= |mem|
    requires mem[lo..hi][..from - lo] == data[lo - off..hi - off][..from - lo]
    ensures SameUpTo(mem, off, data, lo, from)
  {
    forall j | lo <= j < from
      ensures mem[j] == data[j - off]
    {
      assert mem[lo..hi][..from - lo][j - lo] == data[lo - off..hi - off][..from - lo][j - lo];
    }
  }

  lemma FlashAddress(addr: nat)
    requires FLASHBASE <= addr < FLASHBASE + MEMBYTES
    ensures addr % MEMBYTES == addr - FLASHBASE && (addr - FLASHBASE) % PAGE == addr % PAGE
  {
  }

  /** A sector that begins in the flash lies in it. */
  lemma SectorInFlash(s: nat)
    requires s % SECTOR == 0 && FLASHBASE <= s
    ensures s < FLASHBASE + MEMBYTES ==> s + SECTOR <= FLASHBASE + MEMBYTES
  {
  }

  lemma SectorAddress(s: nat)
    requires FLASHBASE <= s < FLASHBASE + MEMBYTES && s % SECTOR == 0
    ensures s % MEMBYTES == s - FLASHBASE && (s - FLASHBASE) % SECTOR == 0 && s - FLASHBASE + SECTOR <= MEMBYTES
  {
  }

  /** Clearing bits is enough for the data between two addresses. */
  ghost predicate Clearing(mem: seq<nat>, off: nat, data: seq<nat>, from: nat, hi: nat)
    requires off <= from && hi <= off + |data| <= |mem|
  {
    forall j | from <= j < hi :: CanProgram(mem[j], data[j - off])
  }

  /** Whether the sector must be erased; if not, up to where it is right, and that the rest needs bits cleared only. */
  ghost predicate Planned(mem: seq<nat>, off: nat, data: seq<nat>, so: nat, lo: nat, hi: nat, needErase: bool, from: nat)
    requires off <= lo <= from <= hi <= off + |data| <= |mem|
  {
    && needErase == MustErase(mem, off, data, so / SECTOR)
    && (!needErase ==> SameUpTo(mem, off, data, lo, from) && Clearing(mem, off, data, from, hi))
  }

  /** What a comparison of slices says about the contents; nothing differs before `from`. */
  lemma PlanIsRight(mem: seq<nat>, off: nat, data: seq<nat>, so: nat, lo: nat, hi: nat,
                    sbuf: seq<nat>, want: seq<nat>, needErase: bool, from: nat)
    requires off + |data| <= |mem| && IsShare(off, |data|, so, lo, hi)
    requires sbuf == mem[lo..hi] && want == data[lo - off..hi - off]
    requires needErase == NeedsErase(sbuf, want)
    requires lo <= from <= hi && (!needErase ==> sbuf[..from - lo] == want[..from - lo])
    ensures Planned(mem, off, data, so, lo, hi, needErase, from)
  {
    SectorNeeds(mem, off, data, so, lo, hi);
    if !needErase {
      SamePrefix(mem, off, data, lo, from, hi);
      KeptCanProgram(mem, off, data, from, lo, hi);
    }
  }

  /** The same, of the addresses the driver works with. */
  lemma PlanFollows(mem: seq<nat>, off: nat, data: seq<nat>, so: nat, lo: nat, hi: nat,
                    sbuf: seq<nat>, want: seq<nat>, base: nat, needErase: bool, newv: nat) returns (start: nat)
    requires off + |data| <= |mem| && IsShare(off, |data|, so, lo, hi) && base == FLASHBASE + lo
    requires sbuf == mem[lo..hi] && want == data[lo - off..hi - off]
    requires needErase == NeedsErase(sbuf, want) && (newv == 0 ==> !needErase && sbuf == want)
    requires newv != 0 ==> base <= newv < base + |sbuf|
    requires newv != 0 && !needErase ==> sbuf[..newv - base] == want[..newv - base]
    ensures start == (if newv == 0 then hi else newv - FLASHBASE)
    ensures lo <= start <= hi && Planned(mem, off, data, so, lo, hi, needErase, start)
    ensures newv != 0 ==> start < hi
  {
    start := if newv == 0 then hi else newv - FLASHBASE;
    PlanIsRight(mem, off, data, so, lo, hi, sbuf, want, needErase, start);
  }

  /** A sector that is right to the end of its share needs nothing. */
  lemma PlannedNothing(mem: seq<nat>, off: nat, data: seq<nat>, so: nat, lo: nat, hi: nat)
    requires off + |data| <= |mem| && IsShare(off, |data|, so, lo, hi) && Planned(mem, off, data, so, lo, hi, false, hi)
    ensures SectorWritten(mem, off, data, so) == mem
  {
    NothingToDo(mem, off, data, so, lo, hi);
  }

  lemma WordStart(base: nat, i: nat)
    requires base % 4 == 0
    ensures i / 4 * 4 <= i && (i / 4 * 4 + base) % 4 == 0
  {
  }

  lemma Shorter(x: seq<nat>, y: seq<nat>, m: nat, n: nat)
    requires m <= n <= |x| == |y| && x[..n] == y[..n]
    ensures x[..m] == y[..m]
  {
    assert x[..m] == x[..n][..m] && y[..m] == y[..n][..m];
  }

  lemma Alignment(s: nat)
    requires s % SECTOR == 0
    ensures s % 4 == 0 && (s + SECTOR) % 4 == 0
  {
    assert s == s / SECTOR * 0x4000 * 4;
  }

  /** The contents after the work in the sector at `so`. */
  ghost function SectorWritten(mem: seq<nat>, off: nat, data: seq<nat>, so: nat): (m: seq<nat>)
    requires off + |data| <= |mem|
    ensures |m| == |mem|
  {
    seq(|mem|, j requires 0 <= j < |mem| => if so <= j < so + SECTOR then ByteWritten(mem, off, data, j) else mem[j])
  }

  /** The stretch of the data that lies in the sector at `so`. */
  predicate IsShare(off: nat, n: nat, so: nat, lo: nat, hi: nat) {
    so % SECTOR == 0 && lo == (if off > so then off else so) && hi == (if off + n > so + SECTOR then so + SECTOR else off + n)
    && lo <= hi && lo < so + SECTOR
  }

  lemma InSector(so: nat, j: nat)
    requires so % SECTOR == 0
    ensures j / SECTOR == so / SECTOR <==> so <= j < so + SECTOR
  {
  }

  /** A sector must be erased exactly when some byte of its share of the data cannot be programmed. */
  lemma SectorNeeds(mem: seq<nat>, off: nat, data: seq<nat>, so: nat, lo: nat, hi: nat)
    requires off + |data| <= |mem| && IsShare(off, |data|, so, lo, hi)
    ensures MustErase(mem, off, data, so / SECTOR)
       <==> exists i :: 0 <= i < hi - lo && !CanProgram(mem[lo..hi][i], data[lo - off..hi - off][i])
  {
    if MustErase(mem, off, data, so / SECTOR) {
      var j :| off <= j < off + |data| && j / SECTOR == so / SECTOR && !CanProgram(mem[j], data[j - off]);
      NeedShows(mem, off, data, so, lo, hi, j);
    }
    if i :| 0 <= i < hi - lo && !CanProgram(mem[lo..hi][i], data[lo - off..hi - off][i]) {
      ShownIsNeeded(mem, off, data, so, lo, hi, i);
    }
  }

  lemma NeedShows(mem: seq<nat>, off: nat, data: seq<nat>, so: nat, lo: nat, hi: nat, j: nat)
    requires off + |data| <= |mem| && IsShare(off, |data|, so, lo, hi)
    requires off <= j < off + |data| && j / SECTOR == so / SECTOR && !CanProgram(mem[j], data[j - off])
    ensures lo <= j < hi && !CanProgram(mem[lo..hi][j - lo], data[lo - off..hi - off][j - lo])
  {
    InSector(so, j);
    SlicesHold(mem, off, data, lo, hi, j - lo);
  }

  lemma ShownIsNeeded(mem: seq<nat>, off: nat, data: seq<nat>, so: nat, lo: nat, hi: nat, i: nat)
    requires off + |data| <= |mem| && IsShare(off, |data|, so, lo, hi)
    requires i < hi - lo && !CanProgram(mem[lo..hi][i], data[lo - off..hi - off][i])
    ensures MustErase(mem, off, data, so / SECTOR)
  {
    var j := lo + i;
    InSector(so, j);
    SlicesHold(mem, off, data, lo, hi, i);
    assert off <= j < off + |data| && j / SECTOR == so / SECTOR && !CanProgram(mem[j], data[j - off]);
  }

  lemma SlicesHold(mem: seq<nat>, off: nat, data: seq<nat>, lo: nat, hi: nat, i: nat)
    requires off <= lo && i < hi - lo && hi <= off + |data| <= |mem|
    ensures mem[lo..hi][i] == mem[lo + i] && data[lo - off..hi - off][i] == data[lo + i - off]
  {
  }

  /** A byte's lot, by what its sector needs. */
  lemma ByteInSector(mem: seq<nat>, off: nat, data: seq<nat>, so: nat, must: bool, j: nat)
    requires off + |data| <= |mem| && so % SECTOR == 0 && so <= j < so + SECTOR && j < |mem|
    requires must == MustErase(mem, off, data, so / SECTOR)
    ensures ByteWritten(mem, off, data, j)
         == if off <= j < off + |data| then data[j - off] else if must then 0xff else mem[j]
  {
    InSector(so, j);
  }

  lemma NothingToDo(mem: seq<nat>, off: nat, data: seq<nat>, so: nat, lo: nat, hi: nat)
    requires off + |data| <= |mem| && IsShare(off, |data|, so, lo, hi) && !MustErase(mem, off, data, so / SECTOR)
    requires SameUpTo(mem, off, data, lo, hi)
    ensures SectorWritten(mem, off, data, so) == mem
  {
    var w := SectorWritten(mem, off, data, so);
    forall j | 0 <= j < |mem|
      ensures w[j] == mem[j]
    {
      if so <= j < so + SECTOR {
        ByteInSector(mem, off, data, so, false, j);
      }
    }
  }

  lemma ShareEnds(s: nat, so: nat, addr: nat, off: nat, n: nat, lo: nat, hi: nat)
    requires s == FLASHBASE + so && addr == FLASHBASE + off && IsShare(off, n, so, lo, hi)
    ensures FLASHBASE + hi == if addr + n < s + SECTOR then addr + n else s + SECTOR
    ensures s <= FLASHBASE + lo < s + SECTOR
  {
  }

  lemma ErasedCanProgram(mem: seq<nat>, off: nat, data: seq<nat>, so: nat, lo: nat, hi: nat)
    requires off + |data| <= |mem| && IsShare(off, |data|, so, lo, hi) && Bytes(data)
    ensures Clearing(Erased(mem, so, SECTOR), off, data, lo, hi)
  {
    forall j | lo <= j < hi
      ensures CanProgram(Erased(mem, so, SECTOR)[j], data[j - off])
    {
      BlankCanProgram(data[j - off]);
    }
  }

  lemma KeptCanProgram(mem: seq<nat>, off: nat, data: seq<nat>, from: nat, lo: nat, hi: nat)
    requires off <= lo <= from <= hi <= off + |data| <= |mem|
    requires forall i | 0 <= i < hi - lo :: CanProgram(mem[lo..hi][i], data[lo - off..hi - off][i])
    ensures forall j | from <= j < hi :: CanProgram(mem[j], data[j - off])
  {
    forall j | from <= j < hi
      ensures CanProgram(mem[j], data[j - off])
    {
      assert CanProgram(mem[lo..hi][j - lo], data[lo - off..hi - off][j - lo]);
    }
  }

  /** Filling the rest of the share, over what was kept or erased, is the work of the sector. */
  lemma SectorFilled(mem: seq<nat>, off: nat, data: seq<nat>, so: nat, lo: nat, hi: nat, erase: bool, from: nat, before: seq<nat>)
    requires off + |data| <= |mem| && IsShare(off, |data|, so, lo, hi) && erase == MustErase(mem, off, data, so / SECTOR)
    requires lo <= from <= hi && before == if erase then Erased(mem, so, SECTOR) else mem
    requires if erase then from == lo else SameUpTo(mem, off, data, lo, from)
    ensures Filled(before, off, data, from, hi) == SectorWritten(mem, off, data, so)
  {
    var m, w := Filled(before, off, data, from, hi), SectorWritten(mem, off, data, so);
    forall j | 0 <= j < |mem|
      ensures m[j] == w[j]
    {
      if so <= j < so + SECTOR {
        ByteInSector(mem, off, data, so, erase, j);
      }
    }
  }

  lemma SumAligned(a: nat, b: nat)
    requires a % 4 == 0 && b % 4 == 0
    ensures (a + b) % 4 == 0
  {
  }

  /** A page's share of the data: up to the end of the page, or of the data. */
  lemma PageClips(start: nat, end: nat, len: nat, s: nat)
    requires start < end && start % 4 == 0 && end % 4 == 0 && s % SECTOR == 0 && s <= start < s + SECTOR
    requires len == if (end - 1) / PAGE != start / PAGE then (start + PAGE) / PAGE * PAGE - start else end - start
    ensures 0 < len && len % 4 == 0 && start % PAGE + len <= PAGE && start + len <= end && start + len <= s + SECTOR
    ensures var next := (start + PAGE) / PAGE * PAGE;
            && next % 4 == 0 && start + len <= next && (start + len == next || start + len == end)
            && start < next <= s + SECTOR
  {
    var page := start / PAGE;
    assert (start + PAGE) / PAGE == page + 1;
    assert start == page * PAGE + start % PAGE;
    SectorHoldsPages(start, s);
  }

  lemma SectorHoldsPages(start: nat, s: nat)
    requires s % SECTOR == 0 && s <= start < s + SECTOR
    ensures start / PAGE * PAGE + PAGE <= s + SECTOR
  {
    var k := s / SECTOR;
    assert s == k * 256 * PAGE;
    assert start / PAGE < k * 256 + 256;
  }

  predicate IsBlank(data: seq<nat>) {
    forall k | 0 <= k < |data| :: data[k] == 0xff
  }

  /** The words of blank data, and of no other, are all ones. */
  lemma BlankWords(data: seq<nat>)
    requires |data| % 4 == 0 && Bytes(data)
    ensures IsBlank(data) <==> forall j | 0 <= j < |WordsOf(data)| :: WordsOf(data)[j] == 0xffff_ffff
  {
    var words := WordsOf(data);
    forall j | 0 <= j < |words|
      ensures words[j] == 0xffff_ffff <==> IsBlank(data[4 * j..4 * j + 4])
    {
      BlankWord(data[4 * j..4 * j + 4]);
      assert IsBlank([0xff, 0xff, 0xff, 0xff]);
      assert IsBlank(data[4 * j..4 * j + 4]) ==> data[4 * j..4 * j + 4] == [0xff, 0xff, 0xff, 0xff];
    }
    if forall j | 0 <= j < |words| :: words[j] == 0xffff_ffff {
      forall k | 0 <= k < |data|
        ensures data[k] == 0xff
      {
        var j := k / 4;
        assert words[j] == 0xffff_ffff;
        assert data[4 * j..4 * j + 4][k % 4] == data[k];
      }
    }
  }

  /** Programming blank data changes nothing. */
  lemma ProgramBlankData(mem: seq<nat>, off: nat, data: seq<nat>)
    requires Bytes(mem) && IsBlank(data)
    ensures ProgramAt(mem, off, data) == mem
  {
    forall j | 0 <= j < |mem|
      ensures ProgramAt(mem, off, data)[j] == mem[j]
    {
      AndBlank(mem[j]);
    }
  }

  lemma ErasedIsBlank(mem: seq<nat>, at: nat)
    requires at + SECTOR <= |mem|
    ensures IsBlank(Erased(mem, at, SECTOR)[at..at + SECTOR])
  {
  }

  lemma BlankGrows(mem: seq<nat>, at: nat, n: nat, m: nat)
    requires at + n + m <= |mem|
    ensures IsBlank(mem[at..at + n + m]) <==> IsBlank(mem[at..at + n]) && IsBlank(mem[at + n..at + n + m])
  {
    var x, y, z := mem[at..at + n], mem[at + n..at + n + m], mem[at..at + n + m];
    assert z == x + y;
    forall k | 0 <= k < n
      ensures x[k] == z[k]
    {
    }
    forall k | 0 <= k < m
      ensures y[k] == z[n + k]
    {
    }
  }

  lemma NotBlank(mem: seq<nat>, at: nat, n: nat, m: nat)
    requires n <= m && at + m <= |mem| && !IsBlank(mem[at..at + n])
    ensures !IsBlank(mem[at..at + m])
  {
    BlankGrows(mem, at, n, m - n);
  }

  /** One page of a sector's check: a page that is not blank shows that the sector is not. */
  lemma PageIsBlank(mem: seq<nat>, at: nat, n: nat, page: seq<nat>, blank: bool)
    requires at + n + PAGE <= |mem| && n + PAGE <= SECTOR && at + SECTOR <= |mem| && Bytes(mem) && IsBlank(mem[at..at + n])
    requires page == WordsOf(mem[at + n..at + n + PAGE])
    requires blank <==> forall k | 0 <= k < |page| :: page[k] == 0xffff_ffff
    ensures blank ==> IsBlank(mem[at..at + (n + PAGE)])
    ensures !blank ==> !IsBlank(mem[at..at + SECTOR])
  {
    BlankWords(mem[at + n..at + n + PAGE]);
    BlankGrows(mem, at, n, PAGE);
    if !blank {
      NotBlank(mem, at, n + PAGE, SECTOR);
    }
  }
}
