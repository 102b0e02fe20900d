/**
 * The host's end of the debug bus, with the fields and loops of the driver. What the line has been
 * given is `wire`; the codes still to come from it, filtered, are `incoming`.
 */
module TtyBus {
  import opened Words
  import opened TtyCodec
  import opened TtyPeer
  import opened TtyAddress
  import opened TtyWrite
  import opened TtyRead
  import opened TtyPlan
  import opened TtyLink

  const MAXWRLEN := 32

  lemma ValueOut(d: seq<nat>)
    requires 1 <= |d| <= 5
    ensures |d| == 1 ==> Value(d) == d[0]
    ensures |d| == 2 ==> Value(d) == 64 * d[0] + d[1]
    ensures |d| == 3 ==> Value(d) == 64 * (64 * d[0] + d[1]) + d[2]
    ensures |d| == 4 ==> Value(d) == 64 * (64 * (64 * d[0] + d[1]) + d[2]) + d[3]
    ensures |d| == 5 ==> Value(d) == 64 * (64 * (64 * (64 * d[0] + d[1]) + d[2]) + d[3]) + d[4]
    decreases |d|
  {
    assert Value([]) == 0;
    if |d| == 1 {
      assert d[..0] == [];
    } else {
      ValueOut(d[..|d| - 1]);
    }
  }

  lemma SlotBack(wr: nat, i: nat)
    requires wr < 256 && 0 < i < 256
    ensures var s := (wr + 256 - i) % 256; s == Slot(wr, i) && (wr + 256 - s) % 256 == i
  {
  }

  lemma TextAppend(w: string, x: seq<nat>, y: seq<nat>)
    ensures w + Text(x) + Text(y) == w + Text(x + y)
  {
  }

  lemma Regroup(sent: seq<nat>, line: seq<nat>, codes: seq<nat>, tail: seq<nat>, address: seq<nat>, before: seq<nat>)
    requires sent + line == address + before
    ensures sent + (line + codes + tail) == address + (before + codes) + tail
  {
    assert sent + (line + codes + tail) == (sent + line) + codes + tail;
    assert (address + before) + codes == address + (before + codes);
  }

  /** One more word of a vector. */
  lemma WordsNext(start: Host, done: seq<nat>, word: nat, inc: bool)
    requires start.Valid()
    ensures var h := AfterWords(start, done, inc);
            && WordsCodes(start, done + [word], inc) == WordsCodes(start, done, inc) + WordCodes(h, word, inc)
            && AfterWords(start, done + [word], inc) == AfterWord(h, word, inc)
  {
    assert (done + [word])[..|done|] == done;
  }

  lemma TakeMore(words: seq<nat>, k: nat, done: seq<nat>) returns (more: seq<nat>)
    requires k < |words| && done == words[..k]
    ensures more == done + [words[k]] && more == words[..k + 1]
  {
    more := words[..k + 1];
  }

  lemma StartOfText(w: string, x: seq<nat>)
    ensures w + Text([]) == w && [] + x == x && x + ([] + []) == x
  {
  }

  /** The last line of a vector ends with a newline. */
  function Newline(last: bool): seq<nat> {
    if last then [INVALID] else []
  }

  /** What `writev` has put on the line when `n` words are through. */
  function CodesUpTo(address: seq<nat>, start: Host, words: seq<nat>, n: nat, inc: bool): seq<nat>
    requires start.Valid() && n <= |words|
  {
    address + WordsCodes(start, words[..n], inc) + Newline(n == |words|)
  }

  /** A line's worth of words, sent after `sent`. */
  lemma CodesGoOn(address: seq<nat>, start: Host, words: seq<nat>, n: nat, m: nat, inc: bool,
                  sent: seq<nat>, line: seq<nat>, codes: seq<nat>)
    requires start.Valid() && n < m <= |words|
    requires WordsCodes(start, words[..m], inc) == WordsCodes(start, words[..n], inc) + codes
    requires sent + line == address + WordsCodes(start, words[..n], inc)
    ensures sent + (line + codes + Newline(m == |words|)) == CodesUpTo(address, start, words, m, inc)
  {
    Regroup(sent, line, codes, Newline(m == |words|), address, WordsCodes(start, words[..n], inc));
  }

  datatype Status = Ready | Bad | Starved

  /** How an outcome shows: as a word, a bus error thrown, or a wait without end. */
  ghost predicate Tells(o: Outcome, status: Status, val: nat, after: Reader, rest: seq<nat>) {
    match o
    case Got(word, r, codes) => status == Ready && val == word && after == r && rest == codes
    case BusError(r, codes) => status == Bad && after == r && rest == codes
    case Waiting => status == Starved
  }

  /** The same, for several words. */
  ghost predicate TellsAll(o: Outcomes, status: Status, words: seq<nat>, after: Reader, rest: seq<nat>) {
    match o
    case AllGot(all, r, codes) => status == Ready && words == all && after == r && rest == codes
    case Failed(k, r, codes) => status == Bad && |words| == k && after == r && rest == codes
    case Blocked => status == Starved
  }

  lemma FollowingTwice(x: seq<nat>, word: nat, o: Outcomes)
    ensures Following(x, Following([word], o)) == Following(x + [word], o)
  {
    if o.AllGot? {
      assert x + ([word] + o.words) == x + [word] + o.words;
    }
  }

  /** What is left of a line of commands. */
  function RestOfLine(cmd: nat, read: nat, len: nat, inc: bool): seq<nat>
    requires read <= cmd <= len
  {
    if cmd - read < READAHEAD + READBLOCK && cmd < len then StepsCodes(Batch(cmd, read, len), inc) else []
  }

  lemma FirstStep(n: nat, steps: seq<Step>, rest: seq<Step>, inc: bool)
    requires steps == [Issue(n)] + rest && n <= 520 && n > 0
    ensures StepsCodes(steps, inc) == ReadCodes(n, inc) + StepsCodes(rest, inc)
  {
    assert steps[1..] == rest;
  }

  /** The first command of a line, and the rest of it. */
  lemma LineGoesOn(cmd: nat, read: nat, len: nat, n: nat, inc: bool)
    requires read <= cmd < len && cmd - read < READAHEAD + READBLOCK && n == Size(cmd, read, len)
    ensures RestOfLine(cmd, read, len, inc) == ReadCodes(n, inc) + RestOfLine(cmd + n, read, len, inc)
  {
    var next := cmd + n;
    var rest := if next - read < READAHEAD + READBLOCK && next < len then Batch(next, read, len) else [];
    assert Batch(cmd, read, len) == [Issue(n)] + rest;
    FirstStep(n, Batch(cmd, read, len), rest, inc);
  }

  lemma LineSplits(sent: seq<nat>, line: seq<nat>, codes: seq<nat>, rest: seq<nat>)
    ensures sent + (line + codes + Newline(true)) + rest == sent + (line + (codes + [INVALID] + rest))
  {
  }

  /** How `readv` ends: with the words, a bus error thrown, a wait without end, or a failed last check. */
  datatype End = Done | Refused(addr: nat) | Hung | Lost

  /** Blocks fill the window in a few commands. */
  lemma {:induction false} LineIsShort(cmd: nat, read: nat, len: nat, inc: bool)
    requires read <= cmd < len && cmd - read < READAHEAD + READBLOCK
    ensures 256 * |RestOfLine(cmd, read, len, inc)| <= LineEnd(read, len) - cmd + 512
    ensures |RestOfLine(cmd, read, len, inc)| <= 6
    decreases len - cmd
  {
    var n := Size(cmd, read, len);
    LineGoesOn(cmd, read, len, n, inc);
    if cmd + n - read < READAHEAD + READBLOCK && cmd + n < len {
      LineIsShort(cmd + n, read, len, inc);
    }
  }

  class TtyBus {
    var wire: string
    var incoming: seq<nat>
    var interruptFlag: bool
    var busErr: bool
    var addrSet: bool
    var lastaddr: nat
    var wrloaded: bool
    var rdaddr: nat
    var wraddr: nat
    var buflen: nat
    const readtbl: array<nat>
    const writetbl: array<nat>

    ghost predicate Valid()
      reads this
    {
      && readtbl.Length == 1024 && writetbl.Length == 512 && readtbl != writetbl
      && rdaddr < 1024 && wraddr < 256 && Aligned(lastaddr) && Filtered(incoming)
      && buflen >= 128
    }

    function HostNow(): (h: Host)
      requires Valid()
      reads this, writetbl
      ensures h.Valid()
    {
      Host(writetbl[..256], wraddr, wrloaded, addrSet, lastaddr)
    }

    function Snapshot(): (l: Link)
      requires Valid()
      reads this, readtbl, writetbl
      ensures l.Valid()
    {
      Link(HostNow(), readtbl[..], rdaddr, interruptFlag, busErr)
    }

    constructor ()
      ensures Valid() && Snapshot() == NewLink() && wire == "" && incoming == []
      ensures fresh(readtbl) && fresh(writetbl)
    {
      wire, incoming := "", [];
      interruptFlag, busErr, addrSet, wrloaded := false, false, false, false;
      lastaddr, rdaddr, wraddr := 0, 0, 0;
      buflen := 128;
      readtbl := new nat[1024](_ => 0);
      writetbl := new nat[512](_ => 0);
      new;
      assert Snapshot() == NewLink();
    }

    /** `len & -0x3f` clears bits 1 to 5. */
    method BufAlloc(len: nat)
      requires Valid()
      modifies `buflen
      ensures Valid() && buflen >= len && buflen >= old(buflen)
      ensures Snapshot() == old(Snapshot())
    {
      if buflen >= len {
        return;
      }
      buflen := len / 64 * 64 + len % 2 + 0x40;
    }

    /** A line, and the character that ends the string, fit the buffer. */
    method Send(line: seq<nat>)
      requires Valid() && |line| < buflen
      modifies `wire
      ensures wire == old(wire) + Text(line)
      ensures Valid() && HostNow() == old(HostNow()) && ReaderNow() == old(ReaderNow())
    {
      wire := wire + Text(line);
    }

    method EncodeAddress(a: nat) returns (line: seq<nat>)
      requires Valid() && Aligned(a)
      modifies `rdaddr
      ensures Valid() && line == AddressCodes(a, addrSet, lastaddr)
      ensures rdaddr == if addrSet && a == lastaddr then old(rdaddr) else 0
    {
      var addr := a / 4;
      line := [];
      if addrSet && a == lastaddr {
        return;
      }
      if addrSet {
        line := EncodeDifference((a + TWO32 - lastaddr) % TWO32 / 4);
      }
      line := EncodeAbsolute(addr, line);
      rdaddr := 0;
    }

    /** An absolute address, if it takes no more codes than the difference `diff`. */
    static method EncodeAbsolute(addr: nat, diff: seq<nat>) returns (line: seq<nat>)
      requires addr < WORDS
      ensures line == PreferAbsolute(addr, diff)
    {
      if addr <= 0x3f && (diff == [] || |diff| >= 2) {
        OneDigit(addr);
        line := [0x08, addr % 64];
      } else if addr <= 0xfff && (diff == [] || |diff| >= 3) {
        TwoDigits(addr);
        line := [0x0a, addr / 0x40 % 64, addr % 64];
      } else if addr <= 0x3_ffff && (diff == [] || |diff| >= 4) {
        ThreeDigits(addr);
        line := [0x0c, addr / 0x1000 % 64, addr / 0x40 % 64, addr % 64];
      } else if addr <= 0xff_ffff && (diff == [] || |diff| >= 5) {
        FourDigits(addr);
        line := [0x0e, addr / 0x4_0000 % 64, addr / 0x1000 % 64, addr / 0x40 % 64, addr % 64];
      } else if diff == [] {
        line := Encode(0, addr);
      } else {
        line := diff;
      }
    }

    static method EncodeDifference(diff: nat) returns (line: seq<nat>)
      ensures line == DifferenceCodes(diff)
    {
      line := [];
      if diff < 32 {
        OneDigit(diff);
        line := [0x09, diff % 64];
      } else if diff < 2048 {
        TwoDigits(diff);
        line := [0x0b, diff / 0x40 % 64, diff % 64];
      } else if diff < 0x2_0000 {
        ThreeDigits(diff);
        line := [0x0d, diff / 0x1000 % 64, diff / 0x40 % 64, diff % 64];
      } else if diff < 0x80_0000 {
        FourDigits(diff);
        line := [0x0f, diff / 0x4_0000 % 64, diff / 0x1000 % 64, diff / 0x40 % 64, diff % 64];
      }
    }

    /** `encode`: the high two bits of a word with a prefix, then the other thirty. */
    static method Encode(hb: nat, val: nat) returns (line: seq<nat>)
      ensures line == [hb * 4 + val / WORDS % 4] + Digits(val, 5)
    {
      FiveDigits(val);
      line := [hb * 4 + val / WORDS % 4, val / 0x100_0000 % 64, val / 0x4_0000 % 64, val / 0x1000 % 64,
               val / 0x40 % 64, val % 64];
    }

    static method EncodeRepeat(caddr: nat, inc: bool) returns (codes: seq<nat>)
      requires caddr < 256
      ensures codes == [0x10 + caddr / 64 * 2 + if inc then 1 else 0] + Digits(caddr, 1)
    {
      OneDigit(caddr);
      codes := [caddr / 64 % 4 * 2 + (if inc then 1 else 0) + 0x10, caddr % 64];
    }

    static method EncodeWord(val: nat, inc: bool) returns (codes: seq<nat>)
      requires IsWord(val)
      ensures codes == [0x18 + val / WORDS * 2 + if inc then 1 else 0] + Digits(val, 5)
    {
      FiveDigits(val);
      codes := [val / WORDS % 4 * 2 + (if inc then 1 else 0) + 0x18, val / 0x100_0000 % 64,
                val / 0x4_0000 % 64, val / 0x1000 % 64, val / 0x40 % 64, val % 64];
    }

    /** How far back the dictionary holds a word, or 0. */
    method FindWord(val: nat) returns (caddr: nat)
      requires Valid()
      ensures caddr == Back(HostNow(), val, 1)
    {
      caddr := 0;
      ghost var h := HostNow();
      var i := 1;
      while i < 256
        invariant 1 <= i <= 256
        invariant Back(h, val, 1) == Back(h, val, i)
      {
        var tstaddr := (wraddr + 256 - i) % 256;
        SlotBack(wraddr, i);
        assert h.table[tstaddr] == writetbl[tstaddr];
        if !wrloaded && tstaddr > wraddr {
          return;
        }
        if writetbl[tstaddr] == val {
          caddr := (wraddr + 256 - tstaddr) % 256;
          return;
        }
        i := i + 1;
      }
    }

    method EnterWord(val: nat)
      requires Valid() && IsWord(val)
      modifies `wraddr, `wrloaded, writetbl
      ensures Valid() && HostNow() == Entered(old(HostNow()), val)
    {
      writetbl[wraddr] := val;
      wraddr := (wraddr + 1) % 256;
      if wraddr == 0 {
        wrloaded := true;
      }
    }

    method PutWord(val: nat, inc: bool) returns (codes: seq<nat>)
      requires Valid() && IsWord(val)
      modifies `wraddr, `wrloaded, `lastaddr, writetbl
      ensures Valid() && 0 < |codes| <= 6 && codes == WordCodes(old(HostNow()), val, inc)
      ensures HostNow() == AfterWord(old(HostNow()), val, inc)
    {
      ghost var h := HostNow();
      var caddr := FindWord(val);
      if caddr != 0 {
        BackIsNearest(h, val, 1);
        codes := EncodeRepeat(caddr, inc);
      } else {
        codes := EncodeWord(val, inc);
        EnterWord(val);
      }
      StepOn(inc);
    }

    method StepOn(inc: bool)
      requires Valid()
      modifies `lastaddr
      ensures Valid() && HostNow() == Stepped(old(HostNow()), inc)
    {
      if inc {
        lastaddr := (lastaddr + 4) % TWO32;
      }
    }

    /** One more word of a vector that began at `start`, and so far has the words `done` and their codes `made`. */
    method AddWord(word: nat, inc: bool, codes: seq<nat>,
                   ghost start: Host, ghost done: seq<nat>, ghost prefix: seq<nat>, ghost made: seq<nat>)
      returns (more: seq<nat>, ghost madeNow: seq<nat>)
      requires Valid() && IsWord(word) && start.Valid() && HostNow() == AfterWords(start, done, inc)
      requires made == WordsCodes(start, done, inc) && made == prefix + codes
      modifies `wraddr, `wrloaded, `lastaddr, writetbl
      ensures Valid() && |more| <= |codes| + 6 && HostNow() == AfterWords(start, done + [word], inc)
      ensures madeNow == WordsCodes(start, done + [word], inc) && madeNow == prefix + more
    {
      WordsNext(start, done, word, inc);
      var code := PutWord(word, inc);
      Assoc(prefix, codes, code);
      more := codes + code;
      madeNow := made + code;
    }

    /**
     * One line's worth of words: those from `nw` up to `end`, of a vector that began at `start` and so
     * far has the words `done` and their codes `made`.
     */
    method PutWords(words: seq<nat>, nw: nat, end: nat, inc: bool, ghost start: Host, ghost done: seq<nat>, ghost made: seq<nat>)
      returns (codes: seq<nat>, ghost doneNow: seq<nat>, ghost madeNow: seq<nat>)
      requires Valid() && nw <= end <= |words| && forall k | 0 <= k < |words| :: IsWord(words[k])
      requires done == words[..nw] && start.Valid()
      requires HostNow() == AfterWords(start, done, inc) && made == WordsCodes(start, done, inc)
      modifies `wraddr, `wrloaded, `lastaddr, writetbl
      ensures Valid() && |codes| <= 6 * (end - nw) && doneNow == words[..end]
      ensures HostNow() == AfterWords(start, doneNow, inc)
      ensures madeNow == WordsCodes(start, doneNow, inc) && madeNow == made + codes
    {
      codes := [];
      doneNow, madeNow := done, made;
      var k := nw;
      while k < end
        invariant nw <= k <= end && Valid() && |codes| <= 6 * (k - nw)
        invariant doneNow == words[..k]
        invariant HostNow() == AfterWords(start, doneNow, inc)
        invariant madeNow == WordsCodes(start, doneNow, inc)
        invariant madeNow == made + codes
      {
        codes, madeNow := AddWord(words[k], inc, codes, start, doneNow, made, madeNow);
        doneNow := TakeMore(words, k, doneNow);
        k := k + 1;
      }
    }

    /** A line sent, after the `sent` codes. */
    method SendMore(line: seq<nat>, ghost base: string, ghost sent: seq<nat>) returns (ghost sentNow: seq<nat>)
      requires Valid() && |line| < buflen && wire == base + Text(sent)
      modifies `wire
      ensures wire == base + Text(sentNow) && sentNow == sent + line
      ensures Valid() && HostNow() == old(HostNow()) && ReaderNow() == old(ReaderNow())
    {
      TextAppend(base, sent, line);
      Send(line);
      sentNow := sent + line;
    }

    /** One line of a vector that began at `start`, after the `sent` codes and with `line` to begin with. */
    method PutLine(line: seq<nat>, words: seq<nat>, nw: nat, inc: bool,
                   ghost start: Host, ghost address: seq<nat>, ghost base: string, ghost sent: seq<nat>)
      returns (next: nat, ghost sentNow: seq<nat>)
      requires Valid() && nw < |words| && forall k | 0 <= k < |words| :: IsWord(words[k])
      requires start.Valid() && HostNow() == AfterWords(start, words[..nw], inc)
      requires |line| <= 6 && buflen >= (|words| + 2) * 6
      requires wire == base + Text(sent) && sent + line == address + WordsCodes(start, words[..nw], inc)
      modifies `wraddr, `wrloaded, `lastaddr, `wire, writetbl
      ensures Valid() && nw < next <= |words| && HostNow() == AfterWords(start, words[..next], inc)
      ensures wire == base + Text(sentNow) && sentNow == CodesUpTo(address, start, words, next, inc)
    {
      var ln := |words| - nw;
      if ln > MAXWRLEN {
        ln := MAXWRLEN;
      }
      next := nw + ln;
      ghost var done := words[..nw];
      var codes;
      ghost var doneNow, madeNow;
      codes, doneNow, madeNow := PutWords(words, nw, next, inc, start, done, WordsCodes(start, done, inc));
      CodesGoOn(address, start, words, nw, next, inc, sent, line, codes);
      sentNow := SendMore(line + codes + Newline(next == |words|), base, sent);
    }

    /** The lines of a vector; `address` starts the first one. */
    method SendWords(words: seq<nat>, inc: bool, address: seq<nat>)
      requires Valid() && words != [] && forall k | 0 <= k < |words| :: IsWord(words[k])
      requires |address| <= 6 && buflen >= (|words| + 2) * 6
      modifies `wraddr, `wrloaded, `lastaddr, `wire, writetbl
      ensures Valid() && HostNow() == AfterWords(old(HostNow()), words, inc)
      ensures wire == old(wire) + Text(address + WordsCodes(old(HostNow()), words, inc) + [INVALID])
    {
      ghost var start := HostNow();
      ghost var sent: seq<nat> := [];
      assert words[..0] == [] && [] + address == address + [];
      var line, nw := address, 0;
      while nw < |words|
        invariant 0 <= nw <= |words| && Valid() && |line| <= 6 && HostNow() == AfterWords(start, words[..nw], inc)
        invariant nw < |words| ==> sent + line == address + WordsCodes(start, words[..nw], inc)
        invariant nw == |words| ==> sent == CodesUpTo(address, start, words, nw, inc)
        invariant wire == old(wire) + Text(sent)
      {
        nw, sent := PutLine(line, words, nw, inc, start, address, old(wire), sent);
        line := [];
        assert sent + [] == sent;
      }
      assert words[..nw] == words;
    }

    /** `writev`; `ok` is false where it throws a bus error. */
    method WriteV(a: nat, inc: bool, words: seq<nat>) returns (ok: bool)
      requires Valid() && Call(a, inc, words).Valid()
      modifies this, writetbl
      ensures Valid() && ok == (a % 4 == 0) && incoming == old(incoming)
      ensures Snapshot() == AfterWritev(old(Snapshot()), Call(a, inc, words))
      ensures wire == old(wire) + Text(CallCodes(old(HostNow()), Call(a, inc, words)))
    {
      BufAlloc((|words| + 2) * 6);
      if a % 4 != 0 {
        assert wire == old(wire) + Text([]);
        return false;
      }
      WriteAligned(a, inc, words);
      assert Snapshot() == AfterWritev(old(Snapshot()), Call(a, inc, words));
      return true;
    }

    method WriteAligned(a: nat, inc: bool, words: seq<nat>)
      requires Valid() && Call(a, inc, words).Valid() && Aligned(a) && buflen >= (|words| + 2) * 6
      modifies `rdaddr, `lastaddr, `addrSet, `wraddr, `wrloaded, `wire, writetbl
      ensures Valid() && HostNow() == AfterWords(old(HostNow()).(known := true, last := a), words, inc)
      ensures rdaddr == if old(addrSet) && a == old(lastaddr) then old(rdaddr) else 0
      ensures wire == old(wire) + Text(CallCodes(old(HostNow()), Call(a, inc, words)))
    {
      AddressCodesAreCodes(a, addrSet, lastaddr);
      var line := EncodeAddress(a);
      lastaddr, addrSet := a, true;
      if words == [] {
        assert wire == old(wire) + Text([]);
      } else {
        SendWords(words, inc, line);
      }
    }

    // ----- reading

    function ReaderNow(): (r: Reader)
      requires Valid()
      reads this, readtbl
      ensures r.Valid()
    {
      Reader(readtbl[..], rdaddr, addrSet, lastaddr, interruptFlag, busErr)
    }

    static method ReadCmd(inc: bool, len: nat) returns (line: seq<nat>)
      requires 0 < len < 520
      ensures line == ReadCodes(len, inc) && 0 < |line| <= 2
    {
      if len <= 8 {
        line := [0x20 + (len - 1) % 8 * 2 + (if inc then 1 else 0)];
      } else {
        OneDigit(len - 9);
        line := [0x30 + (len - 9) / 64 % 8 * 2 + (if inc then 1 else 0), (len - 9) % 64];
      }
    }

    /** The number a few codes spell, after `high` bits from the first one. */
    static method Spell(high: nat, codes: seq<nat>) returns (val: nat)
      requires 1 <= |codes| <= 4 || |codes| == 5
      ensures |codes| == 5 ==> val == high * WORDS + Value(codes)
      ensures |codes| < 5 && high == 0 ==> val == Value(codes)
    {
      ValueOut(codes);
      val := high * 64 + codes[0];
      if |codes| >= 2 {
        val := val * 64 + codes[1];
      }
      if |codes| >= 3 {
        val := val * 64 + codes[2];
      }
      if |codes| >= 4 {
        val := val * 64 + codes[3];
      }
      if |codes| == 5 {
        val := val * 64 + codes[4];
      }
    }

    /** The first `n` codes, if they have come. */
    method Next(n: nat) returns (codes: seq<nat>)
      requires Valid() && n <= |incoming|
      modifies `incoming
      ensures codes == old(incoming)[..n] && incoming == old(incoming)[n..]
      ensures Valid() && ReaderNow() == old(ReaderNow()) && Filtered(codes)
    {
      codes := incoming[..n];
      incoming := incoming[n..];
    }

    /** The word that starts with `codes`; a code that means nothing gives back `val`. */
    method TakeWord(codes: seq<nat>, val: nat) returns (word: nat)
      requires Valid() && codes != [] && Filtered(codes) && |codes| == AnswerLength(codes[0])
      requires codes[0] >= 6 && !(8 <= codes[0] < 16)
      modifies `rdaddr, `lastaddr, readtbl
      ensures Valid()
      ensures match Parse(codes[0], codes[1..])
              case Recalled(k, inc) =>
                word == Recall(old(readtbl[..]), old(rdaddr), k)
                && ReaderNow() == old(ReaderNow()).(last := Stride(old(lastaddr), inc))
              case Fresh(w, inc) =>
                word == w && ReaderNow() == Enter(old(ReaderNow()), w).(last := Stride(old(lastaddr), inc))
              case _ => word == val && ReaderNow() == old(ReaderNow())
    {
      var sixbits, inc := codes[0], codes[0] % 2 == 1;
      word := val;
      if sixbits < 8 {
        word := RecallWord(1, inc);
      } else if sixbits < 0x20 {
        ValueOut(codes[1..]);
        word := RecallWord(sixbits / 2 % 8 * 64 + codes[1] + 2 + 8, inc);
      } else if sixbits < 0x30 {
        word := RecallWord(sixbits / 2 % 8 + 2, inc);
      } else if sixbits >= 0x38 {
        word := Spell(sixbits / 2 % 4, codes[1..]);
        KeepWord(word, inc);
      }
    }

    method RecallWord(idx: nat, inc: bool) returns (word: nat)
      requires Valid() && 0 < idx < 1024
      modifies `lastaddr
      ensures Valid() && word == Recall(readtbl[..], rdaddr, idx)
      ensures ReaderNow() == old(ReaderNow()).(last := Stride(old(lastaddr), inc))
    {
      word := readtbl[(rdaddr + 1024 - idx) % 1024];
      if inc {
        lastaddr := (lastaddr + 4) % TWO32;
      }
    }

    method KeepWord(word: nat, inc: bool)
      requires Valid()
      modifies `rdaddr, `lastaddr, readtbl
      ensures Valid() && ReaderNow() == Enter(old(ReaderNow()), word).(last := Stride(old(lastaddr), inc))
    {
      readtbl[rdaddr] := word;
      rdaddr := (rdaddr + 1) % 1024;
      if inc {
        lastaddr := (lastaddr + 4) % TWO32;
      }
    }

    /** Codes that start no word; `failed` on a bus error. */
    method TakeNoise(codes: seq<nat>, val: nat) returns (failed: bool, left: nat)
      requires Valid() && codes != [] && Filtered(codes) && |codes| == AnswerLength(codes[0])
      requires codes[0] < 6 || 8 <= codes[0] < 16
      modifies `interruptFlag, `busErr, `addrSet, `lastaddr
      ensures Valid() && failed == Parse(codes[0], codes[1..]).Fault?
      ensures match Parse(codes[0], codes[1..])
              case Interrupted => left == val && ReaderNow() == old(ReaderNow()).(interrupt := true)
              case Located(a) => left == a && ReaderNow() == Relocated(old(ReaderNow()), a)
              case Fault => ReaderNow() == old(ReaderNow()).(busErr := true)
              case _ => left == val && ReaderNow() == old(ReaderNow())
    {
      failed, left := false, val;
      var sixbits := codes[0];
      if sixbits < 6 {
        if sixbits == 3 || sixbits == 5 {
          busErr := true;
          failed := true;
        }
        if sixbits == 4 {
          interruptFlag := true;
        }
      } else {
        left := TakeAddress(codes);
      }
    }

    method TakeAddress(codes: seq<nat>) returns (addr: nat)
      requires Valid() && codes != [] && |codes| == AnswerLength(codes[0]) && 8 <= codes[0] < 16
      modifies `addrSet, `lastaddr
      ensures Valid() && Parse(codes[0], codes[1..]) == Located(addr)
      ensures ReaderNow() == Relocated(old(ReaderNow()), addr)
    {
      addr := SpellAddress(codes[0], codes[1..]);
      SetAddress(addr);
    }

    method SetAddress(addr: nat)
      requires Valid()
      modifies `addrSet, `lastaddr
      ensures Valid() && ReaderNow() == Relocated(old(ReaderNow()), addr)
    {
      addrSet := true;
      lastaddr := addr * 4 % TWO32;
    }

    static method SpellAddress(sixbits: nat, digits: seq<nat>) returns (addr: nat)
      requires 8 <= sixbits < 16 && |digits| == AnswerLength(sixbits) - 1
      ensures Parse(sixbits, digits) == Located(addr)
    {
      addr := Spell(if sixbits < 12 then sixbits % 4 else 0, digits);
    }

    /** `readword` */
    method ReadNextWord() returns (status: Status, val: nat)
      requires Valid()
      modifies `incoming, `interruptFlag, `busErr, `addrSet, `lastaddr, `rdaddr, readtbl
      ensures Valid()
      ensures Tells(ReadWord(old(ReaderNow()), old(incoming), 0), status, val, ReaderNow(), incoming)
    {
      val := 0;
      while true
        invariant Valid()
        invariant ReadWord(ReaderNow(), incoming, val) == ReadWord(old(ReaderNow()), old(incoming), 0)
        decreases |incoming|
      {
        if incoming == [] || |incoming| < AnswerLength(incoming[0]) {
          return Starved, val;
        }
        ghost var was := incoming;
        var codes := Next(AnswerLength(incoming[0]));
        assert codes[1..] == was[1..|codes|];
        if codes[0] < 6 || 8 <= codes[0] < 16 {
          var failed;
          failed, val := TakeNoise(codes, val);
          if failed {
            return Bad, val;
          }
        } else {
          val := TakeWord(codes, val);
          return Ready, val;
        }
      }
    }

    /** `n` words, or as many as come before a bus error. */
    method Collect(n: nat) returns (status: Status, words: seq<nat>)
      requires Valid()
      modifies `incoming, `interruptFlag, `busErr, `addrSet, `lastaddr, `rdaddr, readtbl
      ensures Valid()
      ensures TellsAll(ReadWords(old(ReaderNow()), old(incoming), n), status, words, ReaderNow(), incoming)
    {
      words := [];
      FollowingNothing(ReadWords(ReaderNow(), incoming, n));
      while |words| < n
        invariant Valid() && |words| <= n
        invariant Following(words, ReadWords(ReaderNow(), incoming, n - |words|))
               == ReadWords(old(ReaderNow()), old(incoming), n)
      {
        ghost var r, codes := ReaderNow(), incoming;
        var val;
        status, val := ReadNextWord();
        if status == Ready {
          FollowingTwice(words, val, ReadWords(ReaderNow(), incoming, n - |words| - 1));
          words := words + [val];
        } else {
          return;
        }
      }
      status := Ready;
    }

    /** How many words the next command asks for. */
    static method BlockSize(cmdrd: nat, nread: nat, len: nat) returns (nrd: nat)
      requires nread <= cmdrd < len && cmdrd - nread < READAHEAD + READBLOCK
      ensures nrd == Size(cmdrd, nread, len)
      ensures 0 < nrd <= READBLOCK && cmdrd + nrd <= len && cmdrd + nrd - nread <= READAHEAD + READBLOCK
    {
      nrd := len - cmdrd;
      if nrd > READBLOCK {
        nrd := READBLOCK;
      }
      if cmdrd - nread + nrd > READAHEAD + READBLOCK {
        nrd := READAHEAD + READBLOCK - (cmdrd - nread);
      }
    }

    /** The first command of what is left of a line. */
    static method FirstCommand(cmdrd: nat, nread: nat, len: nat, inc: bool, ghost left: seq<nat>)
      returns (command: seq<nat>, next: nat, ghost rest: seq<nat>)
      requires nread <= cmdrd < len && cmdrd - nread < READAHEAD + READBLOCK && left == RestOfLine(cmdrd, nread, len, inc)
      ensures cmdrd < next <= LineEnd(nread, len)
      ensures left == command + rest && rest == RestOfLine(next, nread, len, inc)
    {
      var nrd := BlockSize(cmdrd, nread, len);
      LineGoesOn(cmdrd, nread, len, nrd, inc);
      command := ReadCmd(inc, nrd);
      next := cmdrd + nrd;
      rest := RestOfLine(next, nread, len, inc);
    }

    /** One line of read commands: the codes `all`. */
    static method Commands(cmdrd: nat, nread: nat, len: nat, inc: bool, ghost all: seq<nat>) returns (line: seq<nat>, next: nat)
      requires nread <= cmdrd < len && cmdrd - nread < READAHEAD + READBLOCK && all == RestOfLine(cmdrd, nread, len, inc)
      ensures line == all && next == LineEnd(nread, len)
    {
      line, next := [], cmdrd;
      ghost var left := all;
      var more := true;
      while more
        invariant nread <= cmdrd <= next <= LineEnd(nread, len)
        invariant more == (next - nread < READAHEAD + READBLOCK && next < len)
        invariant left == RestOfLine(next, nread, len, inc)
        invariant line + left == all
        decreases LineEnd(nread, len) - next
      {
        var command;
        command, next, left := FirstCommand(next, nread, len, inc, left);
        Assoc(line, command, left);
        line := line + command;
        more := next - nread < READAHEAD + READBLOCK && next < len;
      }
    }

    /** `n` more words of `total`; `left` is what all of those make, and `rest` what is left of that. */
    method CollectMore(n: nat, ghost total: nat, ghost left: Outcomes)
      returns (status: Status, words: seq<nat>, ghost rest: Outcomes)
      requires Valid() && n <= total && ReadWords(ReaderNow(), incoming, total) == left
      modifies `incoming, `interruptFlag, `busErr, `addrSet, `lastaddr, `rdaddr, readtbl
      ensures Valid() && Following(words, rest) == left
      ensures status == Ready ==> |words| == n && rest == ReadWords(ReaderNow(), incoming, total - n)
      ensures status == Bad ==> rest == Failed(0, ReaderNow(), incoming)
      ensures status == Starved ==> rest == Blocked
    {
      ReadWordsSplit(ReaderNow(), incoming, n, total - n);
      status, words := Collect(n);
      rest := match status
              case Ready => ReadWords(ReaderNow(), incoming, total - n)
              case Bad => Failed(0, ReaderNow(), incoming)
              case Starved => Blocked;
    }

    /** One line of a read: `left` is still to be sent, after `line`, and `leftNow` once this line is. */
    method SendLine(line: seq<nat>, cmdrd: nat, nread: nat, len: nat, inc: bool,
                    ghost base: string, ghost sent: seq<nat>, ghost left: seq<nat>)
      returns (next: nat, ghost sentNow: seq<nat>, ghost leftNow: seq<nat>)
      requires Valid() && |line| <= 6 && nread <= cmdrd < len && cmdrd - nread < READAHEAD + READBLOCK
      requires wire == base + Text(sent) && left == StepsCodes(Plan(cmdrd, nread, len), inc)
      modifies `wire
      ensures Valid() && ReaderNow() == old(ReaderNow()) && wire == base + Text(sentNow)
      ensures next == LineEnd(nread, len) && leftNow == StepsCodes(Plan(next, Until(nread, len), len), inc)
      ensures sentNow + leftNow == sent + (line + left)
    {
      var codes;
      codes, next := Commands(cmdrd, nread, len, inc, RestOfLine(cmdrd, nread, len, inc));
      LineIsShort(cmdrd, nread, len, inc);
      PlanCodes(cmdrd, nread, len, inc);
      leftNow := StepsCodes(Plan(next, Until(nread, len), len), inc);
      LineSplits(sent, line, codes, leftNow);
      sentNow := SendMore(line + codes + Newline(true), base, sent);
    }

    /** One round of a read: what is sent and read so far, and what is left, still make up the whole. */
    method Round(line: seq<nat>, cmdrd: nat, buf: seq<nat>, len: nat, inc: bool,
                 ghost base: string, ghost sent: seq<nat>, ghost left: seq<nat>, ghost toRead: Outcomes, ghost goal: Outcomes)
      returns (status: Status, more: seq<nat>, next: nat, ghost sentNow: seq<nat>, ghost leftNow: seq<nat>, ghost toReadNow: Outcomes)
      requires Valid() && |line| <= 6 && |buf| <= cmdrd < len && cmdrd - |buf| < READAHEAD + READBLOCK
      requires wire == base + Text(sent) && left == StepsCodes(Plan(cmdrd, |buf|, len), inc)
      requires toRead == ReadWords(ReaderNow(), incoming, len - |buf|) && Following(buf, toRead) == goal
      modifies `rdaddr, `lastaddr, `addrSet, `incoming, `interruptFlag, `busErr, `wire, readtbl
      ensures Valid() && sentNow + leftNow == sent + (line + left) && wire == base + Text(sentNow)
      ensures Following(more, toReadNow) == goal
      ensures status == Ready ==>
                && |more| <= next <= len && cmdrd < next && next - |more| < READAHEAD + READBLOCK
                && leftNow == StepsCodes(Plan(next, |more|, len), inc)
                && toReadNow == ReadWords(ReaderNow(), incoming, len - |more|)
      ensures status == Bad ==> toReadNow == Failed(0, ReaderNow(), incoming)
      ensures status == Starved ==> toReadNow == Blocked
    {
      next, sentNow, leftNow := SendLine(line, cmdrd, |buf|, len, inc, base, sent, left);
      var target := Target(next, |buf|, len);
      status, more, toReadNow := CollectUpTo(target, buf, len, toRead, goal);
    }

    /** How many words are read once the commands up to `next` are out. */
    static method Target(next: nat, nread: nat, len: nat) returns (target: nat)
      requires next == LineEnd(nread, len) && nread < len
      ensures target == Until(nread, len) && nread <= target <= next <= len && next - target < READAHEAD + READBLOCK
    {
      target := if next - READAHEAD > nread then next - READAHEAD else nread;
    }

    /** The words of a read up to the first `target` of them, when `buf` are there already. */
    method CollectUpTo(target: nat, buf: seq<nat>, len: nat, ghost toRead: Outcomes, ghost goal: Outcomes)
      returns (status: Status, more: seq<nat>, ghost toReadNow: Outcomes)
      requires Valid() && |buf| <= target <= len
      requires toRead == ReadWords(ReaderNow(), incoming, len - |buf|) && Following(buf, toRead) == goal
      modifies `incoming, `interruptFlag, `busErr, `addrSet, `lastaddr, `rdaddr, readtbl
      ensures Valid() && Following(more, toReadNow) == goal
      ensures status == Ready ==> |more| == target && toReadNow == ReadWords(ReaderNow(), incoming, len - target)
      ensures status == Bad ==> toReadNow == Failed(0, ReaderNow(), incoming)
      ensures status == Starved ==> toReadNow == Blocked
    {
      var words;
      status, words, toReadNow := CollectMore(target - |buf|, len - |buf|, toRead);
      FollowingBoth(buf, words, toReadNow);
      more := buf + words;
    }

    /** The lines of a read, and the words read before the last of them is sent; `address` starts the first. */
    method ReadAhead(address: seq<nat>, inc: bool, len: nat, ghost all: seq<nat>, ghost goal: Outcomes)
      returns (status: Status, buf: seq<nat>, ghost toRead: Outcomes)
      requires Valid() && |address| <= 6 && len > 0 && goal == ReadWords(ReaderNow(), incoming, len)
      requires all == StepsCodes(Plan(0, 0, len), inc)
      modifies `rdaddr, `lastaddr, `addrSet, `incoming, `interruptFlag, `busErr, `wire, readtbl
      ensures Valid() && Following(buf, toRead) == goal
      ensures status == Ready ==>
                && |buf| <= len && toRead == ReadWords(ReaderNow(), incoming, len - |buf|)
                && wire == old(wire) + Text(address + all)
      ensures status == Bad ==> toRead == Failed(0, ReaderNow(), incoming)
      ensures status == Starved ==> toRead == Blocked
    {
      ghost var base, sent: seq<nat>, left := wire, [], all;
      ghost var whole := address + all;
      toRead := goal;
      FollowingNothing(goal);
      StartOfText(base, whole);
      var line, cmdrd := address, 0;
      status, buf := Ready, [];
      while cmdrd < len
        invariant Valid() && status == Ready && |buf| <= cmdrd <= len && cmdrd - |buf| < READAHEAD + READBLOCK
        invariant toRead == ReadWords(ReaderNow(), incoming, len - |buf|)
        invariant Following(buf, toRead) == goal
        invariant left == StepsCodes(Plan(cmdrd, |buf|, len), inc)
        invariant sent + (line + left) == whole
        invariant |line| <= 6 && (cmdrd == len ==> line == [])
        invariant wire == base + Text(sent)
      {
        status, buf, cmdrd, sent, left, toRead := Round(line, cmdrd, buf, len, inc, base, sent, left, toRead, goal);
        if status != Ready {
          return;
        }
        line := [];
        StartOfText(base, left);
      }
      TakesSendNothing(len - |buf|, inc);
      StartOfText(base, sent);
    }

    /** The lines and answers of a read. */
    method ReadBlocks(address: seq<nat>, inc: bool, len: nat) returns (status: Status, buf: seq<nat>)
      requires Valid() && |address| <= 6 && len > 0
      modifies `rdaddr, `lastaddr, `addrSet, `incoming, `interruptFlag, `busErr, `wire, readtbl
      ensures Valid()
      ensures TellsAll(ReadWords(old(ReaderNow()), old(incoming), len), status, buf, ReaderNow(), incoming)
      ensures status == Ready ==> wire == old(wire) + Text(address + StepsCodes(Plan(0, 0, len), inc))
    {
      ghost var goal := ReadWords(ReaderNow(), incoming, len);
      ghost var toRead;
      status, buf, toRead := ReadAhead(address, inc, len, StepsCodes(Plan(0, 0, len), inc), goal);
      if status == Ready {
        var words;
        status, words, toRead := CollectMore(len - |buf|, len - |buf|, toRead);
        FollowingBoth(buf, words, toRead);
        buf := buf + words;
        assert buf + [] == buf;
      }
    }

    /** `readv` of at least one word from an aligned address. */
    method ReadAligned(a: nat, inc: bool, len: nat) returns (end: End, buf: seq<nat>)
      requires Valid() && Aligned(a) && len > 0
      modifies `rdaddr, `lastaddr, `addrSet, `incoming, `interruptFlag, `busErr, `wire, readtbl
      ensures Valid()
      ensures match ReadvWords(old(Snapshot()), a, len, old(incoming))
              case AllGot(words, r, rest) =>
                && buf == words && ReaderNow() == r && incoming == rest
                && wire == old(wire) + Text(ReadvCodes(old(Snapshot()), a, len, inc))
                && end == if r.last == Beyond(a, len, inc) then Done else Lost
              case Failed(k, r, rest) => end == Refused(Beyond(a, k, inc)) && ReaderNow() == r && incoming == rest
              case Blocked => end == Hung
    {
      AddressCodesAreCodes(a, addrSet, lastaddr);
      var line := EncodeAddress(a);
      assert ReaderNow() == ReaderOf(AfterAddress(old(Snapshot()), a));
      var status;
      status, buf := ReadBlocks(line, inc, len);
      end := match status
             case Ready => if lastaddr == Beyond(a, len, inc) then Done else Lost
             case Bad => Refused(Beyond(a, |buf|, inc))
             case Starved => Hung;
    }

    /** `readv`: reads of no words do nothing, and misaligned addresses are refused. */
    method ReadV(a: nat, inc: bool, len: int) returns (end: End, buf: seq<nat>)
      requires Valid() && a < TWO32
      modifies `rdaddr, `lastaddr, `addrSet, `incoming, `interruptFlag, `busErr, `wire, readtbl
      ensures Valid()
      ensures len <= 0 || a % 4 != 0 ==>
                && Snapshot() == old(Snapshot()) && wire == old(wire) && incoming == old(incoming)
                && buf == [] && end == if len <= 0 then Done else Refused(a)
      ensures len > 0 && a % 4 == 0 ==>
                match ReadvWords(old(Snapshot()), a, len, old(incoming))
                case AllGot(words, r, rest) =>
                  && buf == words && Snapshot() == WithReader(old(Snapshot()), r) && incoming == rest
                  && wire == old(wire) + Text(ReadvCodes(old(Snapshot()), a, len, inc))
                  && end == if r.last == Beyond(a, len, inc) then Done else Lost
                case Failed(k, r, rest) =>
                  && end == Refused(Beyond(a, k, inc))
                  && Snapshot() == WithReader(old(Snapshot()), r) && incoming == rest
                case Blocked => end == Hung
    {
      if len <= 0 {
        return Done, [];
      }
      if a % 4 != 0 {
        return Refused(a), [];
      }
      ghost var l := Snapshot();
      end, buf := ReadAligned(a, inc, len);
      assert Snapshot() == WithReader(l, ReaderNow());
    }
  }
}
