/**
 * The executor at the other end of the debug bus, clock by clock: it takes one command at a time and
 * works it off on a pipelined Wishbone bus. Seen from outside it does what the peer does, as far as
 * reads and addresses go; a write it never finishes, as it is wired.
 */
module TtyExec {
  import opened Words
  import opened TtyPeer
  import opened TtyPlan

  datatype Phase = Idle | Reading | Writing | Flushing

  /** What the executor sends back. */
  datatype Code = BusReset | Located(addr: nat) | BusError | WriteAck | Data(word: nat, inc: bool)

  /** A command as it is handed to the executor. */
  datatype Word = SetAddress(addr: nat) | AddAddress(offset: nat) | WriteWord(data: nat, inc: bool)
    | ReadWords(len: nat, inc: bool) | Unused(top: bool)
  {
    /** The topmost bit of the command. */
    predicate Top() {
      ReadWords? || (Unused? && top)
    }

    predicate Inc() {
      match this
      case WriteWord(_, i) => i
      case ReadWords(_, i) => i
      case _ => false
    }

    function Length(): nat {
      if ReadWords? then len else 0
    }
  }

  datatype Exec = Exec(
    phase: Phase, busy: bool, cyc: bool, stb: bool, we: bool, addr: nat, data: nat, inc: bool, renewed: bool,
    needed: nat, len: nat, single: bool, last: bool, lastAck: bool, zeroAcks: bool, out: Option<Code>)

  datatype Input = Input(reset: bool, offered: bool, word: Word, stall: bool, ack: bool, err: bool, rdata: nat)

  predicate Accepts(s: Exec, i: Input) {
    s.stb && !i.stall
  }

  function NextPhase(s: Exec, i: Input): Phase {
    if i.reset then Idle
    else
      match s.phase
      case Idle => if i.offered && i.word.WriteWord? then Writing else if i.offered && i.word.ReadWords? then Reading else Idle
      case Reading => if i.err || (i.ack && s.lastAck) then Idle else Reading
      case Writing =>
        if i.err then Flushing
        else if i.offered && !s.stb && s.busy && !i.word.WriteWord? && s.zeroAcks then Idle else Writing
      case Flushing => if i.offered && !i.word.WriteWord? then Idle else Flushing
  }

  function NextBusy(s: Exec, i: Input): bool {
    if i.reset then false
    else
      match s.phase
      case Idle => s.busy || (i.offered && (i.word.WriteWord? || i.word.ReadWords?))
      case Reading => s.busy && !(i.err || (i.ack && s.lastAck))
      case Writing => i.err || !(i.offered && !s.stb && s.busy && (i.word.WriteWord? || s.zeroAcks))
      case Flushing => !(i.offered && !i.word.WriteWord?)
  }

  function NextCyc(s: Exec, i: Input): bool {
    if i.reset then false
    else
      match s.phase
      case Idle => i.offered && (i.word.WriteWord? || i.word.ReadWords?)
      case Reading => !(i.err || (i.ack && s.lastAck))
      case Writing => !(i.err || (i.offered && !s.stb && s.busy && !i.word.WriteWord? && s.zeroAcks))
      case Flushing => false
  }

  function NextStb(s: Exec, i: Input): bool {
    if i.reset then false
    else
      match s.phase
      case Idle => i.offered && (i.word.WriteWord? || i.word.ReadWords?)
      case Reading => s.stb && !i.err && (i.stall || !(s.single || s.last))
      case Writing => !i.err && ((i.offered && !s.stb && !s.busy) || (s.stb && i.stall))
      case Flushing => false
  }

  function NextAddr(s: Exec, i: Input): nat {
    if i.offered && !s.busy && i.word.SetAddress? then i.word.addr
    else if i.offered && !s.busy && i.word.AddAddress? then (s.addr + i.word.offset) % TWO32
    else if Accepts(s, i) && s.inc then (s.addr + 1) % TWO32
    else s.addr
  }

  function NextRenewed(s: Exec, i: Input): bool {
    i.reset || (if !s.cyc && i.offered && !i.word.Top() then true else s.renewed && !s.cyc)
  }

  function NextNeeded(s: Exec, i: Input): nat {
    if i.reset || !s.cyc then 0
    else if Accepts(s, i) && !i.ack then (s.needed + 1) % 1024
    else if !Accepts(s, i) && i.ack then (s.needed + 1023) % 1024
    else s.needed
  }

  function NextLen(s: Exec, i: Input): nat {
    if !s.cyc then i.word.Length() else if Accepts(s, i) && s.len > 0 then s.len - 1 else s.len
  }

  /** What is sent back: an address in front of a read, then an answer for every acknowledgement. */
  function NextOut(s: Exec, i: Input): Option<Code> {
    if i.reset then Some(BusReset)
    else if !s.cyc then (if i.offered && !s.busy && i.word.ReadWords? && s.renewed then Some(Located(s.addr)) else None)
    else if i.err then Some(BusError)
    else if !i.ack then None
    else if s.we then Some(WriteAck) else Some(Data(i.rdata, s.inc))
  }

  function Clock(s: Exec, i: Input): Exec {
    Exec(NextPhase(s, i), NextBusy(s, i), NextCyc(s, i), NextStb(s, i),
         if s.phase == Idle then !i.word.Top() else s.we,
         NextAddr(s, i),
         if s.phase == Idle || (s.phase == Writing && !s.busy) then (if i.word.WriteWord? then i.word.data else 0) else s.data,
         if s.phase == Idle then i.word.Inc() else s.inc,
         NextRenewed(s, i), NextNeeded(s, i), NextLen(s, i),
         if !s.cyc then i.word.Length() <= 1 else s.single,
         if !s.cyc then i.word.Length() <= 1 else if Accepts(s, i) then s.len <= 2 else s.len <= 1,
         if !s.cyc then i.word.ReadWords? && i.word.len <= 1
         else !s.we && s.len + s.needed <= 1 + (if i.ack then 1 else 0),
         if i.reset || !s.cyc then true
         else if Accepts(s, i) && !i.ack then false
         else if !Accepts(s, i) && i.ack then s.needed == 1
         else s.zeroAcks,
         NextOut(s, i))
  }

  /** As it is wired, a command is offered only to an executor that is not busy. */
  predicate Wired(s: Exec, i: Input) {
    i.offered ==> !s.busy
  }

  predicate Quiet(i: Input) {
    !i.reset && !i.err
  }

  // ----- writes never end

  predicate Holding(s: Exec) {
    (s.phase == Writing || s.phase == Flushing) && s.busy
  }

  function Run(s: Exec, ins: seq<Input>): Exec
    decreases |ins|
  {
    if ins == [] then s else Run(Clock(s, ins[0]), ins[1..])
  }

  ghost predicate WiredRun(s: Exec, ins: seq<Input>)
    decreases |ins|
  {
    ins == [] || (Wired(s, ins[0]) && !ins[0].reset && WiredRun(Clock(s, ins[0]), ins[1..]))
  }

  /** A write command, once taken, keeps the executor busy: it waits for the next command, which busy keeps away. */
  lemma WriteTaken(s: Exec, i: Input)
    requires s.phase == Idle && !s.busy && i.offered && i.word.WriteWord? && !i.reset
    ensures Holding(Clock(s, i)) && Clock(s, i).stb && Clock(s, i).data == i.word.data
  {
  }

  lemma {:induction false} WriteNeverEnds(s: Exec, ins: seq<Input>)
    requires Holding(s) && WiredRun(s, ins)
    ensures Holding(Run(s, ins)) && forall k | 0 <= k < |ins| :: !ins[k].offered
    decreases |ins|
  {
    if ins != [] {
      WriteNeverEnds(Clock(s, ins[0]), ins[1..]);
      forall k | 0 <= k < |ins|
        ensures !ins[k].offered
      {
        if k > 0 {
          assert ins[1..][k - 1] == ins[k];
        }
      }
    }
  }

  /** It does end if the next command is held out to it all the same. */
  lemma OfferEndsWrite(s: Exec, i: Input)
    requires Holding(s) && s.phase == Writing && !s.stb && s.zeroAcks && i.offered && Quiet(i)
    ensures !i.word.WriteWord? ==> Clock(s, i).phase == Idle && !Clock(s, i).busy && !Clock(s, i).cyc
    ensures i.word.WriteWord? ==> !Clock(s, i).busy && Clock(s, i).phase == Writing
  {
  }

  // ----- reads

  /** The bus requests a read has made, and the answers it has sent back. */
  datatype History = History(requests: seq<nat>, answers: seq<Code>)

  function Record(s: Exec, h: History, i: Input): History {
    History(if Accepts(s, i) then h.requests + [s.addr] else h.requests,
            if s.cyc && i.ack then h.answers + [Data(i.rdata, s.inc)] else h.answers)
  }

  /** The 32-bit address `k` words into a read. */
  function Ahead(addr: nat, k: nat, inc: bool): nat {
    if inc then (addr + k) % TWO32 else addr
  }

  function Requests(addr: nat, n: nat, inc: bool): seq<nat> {
    seq(n, k requires 0 <= k < n => Ahead(addr, k, inc))
  }

  /** In the middle of a read of `n` words from `addr` on. */
  ghost predicate InRead(s: Exec, h: History, addr: nat, n: nat) {
    var k, m := |h.requests|, |h.answers|;
    && s.phase == Reading && s.busy && s.cyc && !s.we && m < n && m <= k <= n < 1024 && addr < TWO32
    && h.requests == Requests(addr, k, s.inc) && s.addr == Ahead(addr, k, s.inc)
    && s.len == n - k && s.needed == k - m && s.stb == (k < n)
    && s.single == (n <= 1) && s.last == (n - k <= 1) && s.lastAck == (n - m <= 1)
  }

  /** Done with it: every word has been asked for and answered, once and in order. */
  ghost predicate ReadDone(s: Exec, h: History, addr: nat, n: nat, inc: bool) {
    && s.phase == Idle && !s.busy && !s.cyc && !s.stb && !s.renewed
    && h.requests == Requests(addr, n, inc) && |h.answers| == n && s.addr == Ahead(addr, n, inc)
  }

  /** A slave acknowledges only what it has been asked. */
  predicate Answers(s: Exec, h: History, i: Input) {
    Quiet(i) && (i.ack ==> |h.answers| < |h.requests| || Accepts(s, i))
  }

  /** A read command, taken: an address goes out in front exactly if it is new. */
  lemma ReadTaken(s: Exec, i: Input)
    requires s.phase == Idle && !s.busy && !s.cyc && !s.stb && s.addr < TWO32 && i.offered && Quiet(i)
    requires i.word.ReadWords? && 0 < i.word.len < 1024
    ensures InRead(Clock(s, i), History([], []), s.addr, i.word.len) && Clock(s, i).inc == i.word.inc
    ensures Clock(s, i).out == if s.renewed then Some(Located(s.addr)) else None
  {
  }

  lemma RequestsGrow(addr: nat, k: nat, inc: bool)
    requires addr < TWO32
    ensures Requests(addr, k, inc) + [Ahead(addr, k, inc)] == Requests(addr, k + 1, inc)
    ensures Ahead(addr, k + 1, inc) == if inc then (Ahead(addr, k, inc) + 1) % TWO32 else Ahead(addr, k, inc)
  {
  }

  /** One clock of a read: it goes on, or is done; an answer goes out exactly for an acknowledgement. */
  lemma ReadClocks(s: Exec, h: History, i: Input, addr: nat, n: nat)
    requires InRead(s, h, addr, n) && Answers(s, h, i) && Wired(s, i)
    ensures var t, g := Clock(s, i), Record(s, h, i);
            if i.ack && |h.answers| == n - 1 then ReadDone(t, g, addr, n, s.inc)
            else InRead(t, g, addr, n) && t.inc == s.inc && !t.renewed
    ensures Clock(s, i).out == if i.ack then Some(Data(i.rdata, s.inc)) else None
  {
    RequestsGrow(addr, |h.requests|, s.inc);
    ReadCounters(s, h, i, addr, n);
  }

  lemma ReadCounters(s: Exec, h: History, i: Input, addr: nat, n: nat)
    requires InRead(s, h, addr, n) && Answers(s, h, i)
    ensures var g := Record(s, h, i);
            NextLen(s, i) == n - |g.requests| && NextNeeded(s, i) == |g.requests| - |g.answers|
  {
  }

  ghost predicate AnsweredRun(s: Exec, h: History, ins: seq<Input>)
    decreases |ins|
  {
    ins == [] || (Answers(s, h, ins[0]) && Wired(s, ins[0])
                  && (Clock(s, ins[0]).phase == Reading ==> AnsweredRun(Clock(s, ins[0]), Record(s, h, ins[0]), ins[1..])))
  }

  /** A read followed to where it is done, or through all the clocks given. */
  function ReadRun(s: Exec, h: History, ins: seq<Input>): (Exec, History)
    decreases |ins|
  {
    if ins == [] || s.phase != Reading then (s, h) else ReadRun(Clock(s, ins[0]), Record(s, h, ins[0]), ins[1..])
  }

  /** Whatever the stalls and the delays: a read makes the requests it should, and is done exactly with the last answer. */
  lemma {:induction false} ReadRuns(s: Exec, h: History, ins: seq<Input>, addr: nat, n: nat)
    requires InRead(s, h, addr, n) && AnsweredRun(s, h, ins)
    ensures var (t, g) := ReadRun(s, h, ins);
            (t.phase == Reading && InRead(t, g, addr, n)) || ReadDone(t, g, addr, n, s.inc)
    decreases |ins|
  {
    if ins != [] {
      ReadClocks(s, h, ins[0], addr, n);
      var t, g := Clock(s, ins[0]), Record(s, h, ins[0]);
      if t.phase == Reading {
        ReadRuns(t, g, ins[1..], addr, n);
      }
    }
  }

  /** A bus error ends a read, and is sent back in place of a word; a reset ends everything, and is sent back too. */
  lemma ErrorEndsRead(s: Exec, h: History, i: Input, addr: nat, n: nat)
    requires InRead(s, h, addr, n) && i.err && !i.reset
    ensures Clock(s, i).phase == Idle && !Clock(s, i).busy && !Clock(s, i).cyc && !Clock(s, i).stb
    ensures Clock(s, i).out == Some(BusError)
    ensures Clock(s, i.(reset := true)).phase == Idle && Clock(s, i.(reset := true)).out == Some(BusReset)
  {
  }

  // ----- the executor and the peer

  /** The executor waits for a command where the peer stands; the peer keeps thirty bits of the address. */
  predicate Stands(s: Exec, p: Peer) {
    s.phase == Idle && !s.busy && !s.cyc && !s.stb && s.addr < TWO32 && p.at == Some(s.addr % WORDS) && s.renewed == p.renewed
  }

  /** The command as the executor gets it. */
  function WordOf(c: Command): Word
    requires !c.Repeat?
  {
    match c
    case Nothing => Unused(true)
    case Renew => Unused(false)
    case Goto(a) => SetAddress(a)
    case Shift(n) => AddAddress(n % TWO32)
    case Store(word, inc) => WriteWord(word, inc)
    case Fetch(len, inc) => ReadWords(len, inc)
  }

  lemma ShiftLands(addr: nat, n: int)
    requires addr < TWO32
    ensures (addr + n % TWO32) % TWO32 % WORDS == (addr % WORDS + n) % WORDS
  {
    var m := n % TWO32;
    assert n == n / TWO32 * TWO32 + m;
    assert (addr + m) % TWO32 % WORDS == (addr + m) % WORDS by { WrapTwice(addr + m); }
    assert addr % WORDS + n == (addr + m) + (n / TWO32 * 4 - addr / WORDS) * WORDS;
    ModShifts(addr + m, n / TWO32 * 4 - addr / WORDS);
  }

  lemma WrapTwice(x: nat)
    ensures x % TWO32 % WORDS == x % WORDS
  {
    assert x == x / TWO32 * 4 * WORDS + x % TWO32;
    ModShifts(x % TWO32, x / TWO32 * 4);
  }

  lemma ModShifts(x: int, k: int)
    ensures (x + k * WORDS) % WORDS == x % WORDS
  {
  }

  /** Address commands, and those that mean nothing, take one clock. */
  lemma AddressObeyed(s: Exec, p: Peer, c: Command, i: Input)
    requires Stands(s, p) && p.Valid() && (c.Nothing? || c.Renew? || (c.Goto? && c.addr < WORDS) || c.Shift?)
    requires i.offered && i.word == WordOf(c) && Quiet(i)
    ensures Obey(p, c).Some? && Stands(Clock(s, i), Obey(p, c).value) && Clock(s, i).out == None
  {
    if c.Shift? {
      ShiftLands(s.addr, c.words);
    }
  }

  lemma AheadIsMove(addr: nat, k: nat, inc: bool)
    requires addr < TWO32
    ensures Ahead(addr, k, inc) % WORDS == Nth(addr % WORDS, k, inc)
  {
    if inc {
      WrapTwice(addr + k);
      assert addr + k == (addr % WORDS + k) + addr / WORDS * WORDS;
      ModShifts(addr % WORDS + k, addr / WORDS);
    }
  }

  /**
   * A read that has run to its end leaves the executor where the peer is after it. It has touched the
   * addresses the peer is said to read; the address came first exactly if the peer had one to report.
   */
  lemma ReadObeyed(s: Exec, p: Peer, n: nat, inc: bool, i: Input, ins: seq<Input>)
    requires Stands(s, p) && p.Valid() && 0 < n < 1024 && i.offered && i.word == WordOf(Fetch(n, inc)) && Quiet(i)
    requires AnsweredRun(Clock(s, i), History([], []), ins)
    ensures Clock(s, i).out == if p.renewed then Some(Located(s.addr)) else None
    ensures var (t, g) := ReadRun(Clock(s, i), History([], []), ins);
            t.phase != Reading ==>
              && Obey(p, Fetch(n, inc)).Some? && Stands(t, Obey(p, Fetch(n, inc)).value) && |g.answers| == n
              && |g.requests| == n && forall k | 0 <= k < n :: g.requests[k] % WORDS == Along(p.at.value, n, inc)[k]
  {
    ReadTaken(s, i);
    ReadRuns(Clock(s, i), History([], []), ins, s.addr, n);
    var (t, g) := ReadRun(Clock(s, i), History([], []), ins);
    if t.phase != Reading {
      AheadIsMove(s.addr, n, inc);
      forall k | 0 <= k < n
        ensures g.requests[k] % WORDS == Along(p.at.value, n, inc)[k]
      {
        AheadIsMove(s.addr, k, inc);
      }
    }
  }
}
