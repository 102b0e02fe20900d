/**
 * The crossbar with its ports: every master's requests pass a skid buffer and a registered address
 * decoder before the crossbar sees them. What a master is told at its port is held against what
 * becomes of its requests.
 */
module CrossbarPorts {
  import opened Words
  import D = AddrDecode
  import X = Crossbar

  /** What of a request is not its address. */
  datatype Body = Body(we: bool, data: nat, sel: nat)

  type Word = (nat, Body)
  type Port = D.Stage<Body>

  datatype MasterIn = MasterIn(cyc: bool, stb: bool, word: Word)

  datatype Input = Input(reset: bool, ms: seq<MasterIn>, ss: seq<X.SlaveIn>)

  datatype State = State(bus: X.State, ports: seq<Port>)

  /** A request as the slaves see it. */
  function AsRequest(w: Word): X.Request {
    X.Request(w.1.we, w.0, w.1.data, w.1.sel)
  }

  // ----- one clock

  /** What a master's decoder presents to the crossbar. */
  function Presented(m: D.Map, p: Port, cyc: bool): X.MasterIn {
    X.MasterIn(cyc, p.valid, D.Target(m, p.addr), AsRequest((p.addr, p.data)))
  }

  function BusInput(m: D.Map, s: State, i: Input): (b: X.Input)
    requires |i.ms| == |s.ports|
    ensures |b.ms| == |i.ms| && b.ss == i.ss && b.reset == i.reset
    ensures forall n | 0 <= n < |i.ms| :: b.ms[n] == Presented(m, s.ports[n], i.ms[n].cyc)
  {
    X.Input(i.reset, seq(|i.ms|, n requires 0 <= n < |i.ms| => Presented(m, s.ports[n], i.ms[n].cyc)), i.ss)
  }

  predicate Fits(m: D.Map, s: State, i: Input) {
    |i.ms| == |s.ports| && |m| == |s.bus.ss| && X.Fits(s.bus, BusInput(m, s, i))
  }

  /** The decoder is stalled by the crossbar only while the master's cycle is open. */
  function DecoderInput(i: MasterIn, stall: bool): D.Input<Body> {
    D.Input(i.stb, i.word.0, i.word.1, stall && i.cyc)
  }

  /** A port's registers after a clock: a closed cycle empties the skid buffer, and so the decoder. */
  function PortClock(m: D.Map, p: Port, reset: bool, i: MasterIn, stall: bool): Port {
    var d := DecoderInput(i, stall);
    var si := D.SkidInput(p, d).(reset := reset || !i.cyc);
    var (addr, data) := p.skid.Data(si);
    var held := p.Stalled(d.stall);
    D.Stage(
      p.skid.Clock(si),
      !reset && (if held then p.valid else p.skid.Valid(si)),
      if reset then seq(|m| + 1, k => false) else if held then p.decode else D.Decoded(m, p.skid.Valid(si), addr),
      if held then p.addr else addr,
      if held then p.data else data)
  }

  function Clock(m: D.Map, s: State, i: Input): (t: State)
    requires Fits(m, s, i)
    ensures |t.ports| == |s.ports| && t.bus == X.Clock(s.bus, BusInput(m, s, i))
  {
    var b := BusInput(m, s, i);
    State(X.Clock(s.bus, b),
          seq(|s.ports|, n requires 0 <= n < |s.ports| =>
            PortClock(m, s.ports[n], i.reset, i.ms[n], X.Stalls(s.bus, b, n))))
  }

  /**
   * The crossbar does not stall its decoder when the master's counter is full and the request is for
   * another slave than the one granted, though it cannot take the request.
   */
  predicate Slips(m: D.Map, s: State, i: Input, n: nat)
    requires Fits(m, s, i) && n < |s.ports|
  {
    var r, b := s.bus.ms[n], BusInput(m, s, i);
    !i.reset && !r.err && r.full && X.Requests(b, n) && b.ms[n].target != r.index
  }

  // ----- the books

  /** What has passed a master's port since its cycle was opened, and how often a request slipped. */
  datatype Ledger = Ledger(accepted: seq<Word>, answered: seq<X.Answer>, lost: nat)

  datatype Books = Books(h: X.History, ledgers: seq<Ledger>)

  /** A request passes the port when the skid buffer is empty; an answer when the crossbar acknowledges. */
  function NextLedger(m: D.Map, s: State, i: Input, b: Books, n: nat): Ledger
    requires Fits(m, s, i) && X.Sized(s.bus, b.h) && |b.ledgers| == |s.ports| && n < |s.ports|
  {
    var l, r := b.ledgers[n], s.bus.ms[n];
    if i.reset || !i.ms[n].cyc || r.err then Ledger([], [], 0)
    else
      Ledger(l.accepted + (if i.ms[n].stb && s.ports[n].skid.Ready() then [i.ms[n].word] else []),
             l.answered + (if r.ack then [b.h.answer[n]] else []),
             l.lost + (if Slips(m, s, i, n) then 1 else 0))
  }

  function Record(m: D.Map, s: State, i: Input, b: Books): (c: Books)
    requires Fits(m, s, i) && X.Sized(s.bus, b.h) && |b.ledgers| == |s.ports|
    ensures |c.ledgers| == |s.ports| && c.h == X.Record(s.bus, BusInput(m, s, i), b.h)
  {
    Books(X.Record(s.bus, BusInput(m, s, i), b.h),
          seq(|s.ports|, n requires 0 <= n < |s.ports| => NextLedger(m, s, i, b, n)))
  }

  function Requests(q: seq<Word>): (r: seq<X.Request>)
    ensures |r| == |q|
  {
    seq(|q|, k requires 0 <= k < |q| => X.Forwarded(AsRequest(q[k])))
  }

  function Answered(q: seq<X.Answer>): (r: seq<X.Request>)
    ensures |r| == |q|
  {
    seq(|q|, k requires 0 <= k < |q| => q[k].req)
  }

  /**
   * The requests accepted at a port are, in order, those answered, those on their way through the
   * crossbar and the slave, and those waiting in the port.
   */
  ghost predicate Balanced(s: State, b: Books, n: nat)
    requires X.Sized(s.bus, b.h) && |b.ledgers| == |s.ports| == |s.bus.ms| && n < |s.ports|
  {
    var l := b.ledgers[n];
    Requests(l.accepted) == Answered(l.answered) + b.h.sent[n] + Requests(D.Buffered(s.ports[n]))
  }

  /** As many are missing from the books as have slipped. */
  ghost predicate Missing(s: State, b: Books, n: nat)
    requires X.Sized(s.bus, b.h) && |b.ledgers| == |s.ports| == |s.bus.ms| && n < |s.ports|
  {
    var l := b.ledgers[n];
    |l.accepted| == |l.answered| + |b.h.sent[n]| + |D.Buffered(s.ports[n])| + l.lost
  }

  /** A master that has been shown an error must close its cycle; its books are closed with it. */
  ghost predicate Kept(s: State, b: Books, n: nat)
    requires X.Sized(s.bus, b.h) && |b.ledgers| == |s.ports| == |s.bus.ms| && n < |s.ports|
  {
    !b.h.aborting[n] ==> Missing(s, b, n) && (b.ledgers[n].lost == 0 ==> Balanced(s, b, n))
  }

  ghost predicate Invariant(m: D.Map, s: State, b: Books) {
    && |m| == |s.bus.ss| && |b.ledgers| == |s.ports| == |s.bus.ms|
    && X.Conserved(s.bus, b.h)
    && (forall n | 0 <= n < |s.ports| :: D.Consistent(m, s.ports[n]) && Kept(s, b, n))
  }

  // ----- the ports

  lemma RequestsAppend(x: seq<Word>, y: seq<Word>)
    ensures Requests(x + y) == Requests(x) + Requests(y)
  {
  }

  lemma AnsweredAppend(x: seq<X.Answer>, y: seq<X.Answer>)
    ensures Answered(x + y) == Answered(x) + Answered(y)
  {
  }

  /** An open port is the decoder behind its skid buffer. */
  lemma OpenPort(m: D.Map, p: Port, i: MasterIn, stall: bool)
    requires i.cyc
    ensures PortClock(m, p, false, i, stall) == D.Clock(m, p, DecoderInput(i, stall))
  {
  }

  lemma ClosedPort(m: D.Map, p: Port, reset: bool, i: MasterIn, stall: bool)
    requires reset || !i.cyc
    ensures D.Buffered(PortClock(m, p, reset, i, stall)) == []
  {
  }

  lemma StaysConsistent(m: D.Map, p: Port, reset: bool, i: MasterIn, stall: bool)
    requires D.Consistent(m, p)
    ensures D.Consistent(m, PortClock(m, p, reset, i, stall))
  {
  }

  /** One clock of an open port, in requests. */
  lemma PortConserves(m: D.Map, p: Port, i: MasterIn, stall: bool)
    requires i.cyc
    ensures Requests(D.Buffered(p)) + Requests(if i.stb && p.skid.Ready() then [i.word] else [])
         == (if p.valid && !stall then [X.Forwarded(AsRequest((p.addr, p.data)))] else [])
              + Requests(D.Buffered(PortClock(m, p, false, i, stall)))
  {
    var d := DecoderInput(i, stall);
    OpenPort(m, p, i, stall);
    D.ClockConserves(m, p, d);
    var a := if i.stb && p.skid.Ready() then [i.word] else [];
    var out := if p.valid && !stall then [(p.addr, p.data)] else [];
    RequestsAppend(D.Buffered(p), a);
    RequestsAppend(out, D.Buffered(D.Clock(m, p, d)));
  }

  /** The decoder's bits, of which the crossbar sees one at most, are the index that stands for them here. */
  lemma DecodeIsTarget(m: D.Map, p: Port, k: nat)
    requires D.Disjoint(m) && D.Consistent(m, p) && k <= |m|
    ensures |p.decode| == |m| + 1 && (p.decode[k] <==> p.valid && k == D.Target(m, p.addr))
  {
    D.OneHot(m, p.valid, p.addr);
  }

  // ----- one clock of the books

  /** What leaves a decoder is taken by the crossbar, or slips. */
  lemma Leaves(m: D.Map, s: State, i: Input, b: Books, n: nat)
    requires Fits(m, s, i) && Invariant(m, s, b) && n < |s.ports|
    requires !i.reset && i.ms[n].cyc && !s.bus.ms[n].err
    ensures var bi := BusInput(m, s, i);
            && (s.ports[n].valid && !X.Stalls(s.bus, bi, n) <==> X.Pushes(s.bus, bi, n) || Slips(m, s, i, n))
            && !(X.Pushes(s.bus, bi, n) && Slips(m, s, i, n))
  {
    var r := s.bus.ms[n];
    assert X.OneGrant(s.bus, n);
    if |s.bus.ss| in r.grant {
      FullHoldsSlave(s, b, n);
    }
  }

  /** A master whose counter is full has been granted a slave, and not the one for addresses without one. */
  lemma FullHoldsSlave(s: State, b: Books, n: nat)
    requires X.Conserved(s.bus, b.h) && n < |s.bus.ms| && |s.bus.ss| in s.bus.ms[n].grant
    ensures !s.bus.ms[n].full
  {
    assert X.Settled(s.bus, b.h, n) && X.Counted(s.bus, b.h, n);
    X.TopIsLarge(s.bus.lg);
  }

  /** The books of one port: requests in front, those on their way, answers behind. */
  lemma Tally(l: seq<X.Request>, a: seq<X.Request>, out: seq<X.Request>, sent: seq<X.Request>, w: seq<X.Request>,
              x: seq<X.Request>, y: seq<X.Request>, v: seq<X.Request>)
    requires l == a + (x + sent) + w && w + y == out + v
    ensures l + y == (a + x) + (sent + out) + v
  {
    assert l + y == a + x + sent + (w + y);
    assert a + x + sent + (out + v) == (a + x) + (sent + out) + v;
  }

  /** Nothing keeps the books of a port from being carried on. */
  ghost predicate Open(m: D.Map, s: State, i: Input, b: Books, n: nat)
    requires Fits(m, s, i) && Invariant(m, s, b) && n < |s.ports|
  {
    !i.reset && i.ms[n].cyc && !s.bus.ms[n].err && !b.h.aborting[n]
  }

  /** What the master is shown, and what the crossbar takes from its decoder, in a clock. */
  function Shown(s: State, b: Books, n: nat): seq<X.Answer>
    requires n < |s.bus.ms| == |b.h.answer|
  {
    if s.bus.ms[n].ack then [b.h.answer[n]] else []
  }

  function Entering(s: State, i: Input, n: nat): seq<Word>
    requires n < |s.ports| == |i.ms|
  {
    if i.ms[n].stb && s.ports[n].skid.Ready() then [i.ms[n].word] else []
  }

  function Issued(m: D.Map, s: State, i: Input, n: nat): seq<X.Request>
    requires Fits(m, s, i) && n < |s.ports|
  {
    if X.Pushes(s.bus, BusInput(m, s, i), n) then [X.Forwarded(AsRequest((s.ports[n].addr, s.ports[n].data)))] else []
  }

  lemma SentMoves(m: D.Map, s: State, i: Input, b: Books, n: nat) returns (rest: seq<X.Request>)
    requires Fits(m, s, i) && Invariant(m, s, b) && n < |s.ports| && Open(m, s, i, b, n)
    ensures b.h.sent[n] == Answered(Shown(s, b, n)) + rest
    ensures Record(m, s, i, b).h.sent[n] == rest + Issued(m, s, i, n)
  {
    if s.bus.ms[n].ack {
      X.AckMeansSent(s.bus, b.h, n);
      rest := b.h.sent[n][1..];
    } else {
      rest := b.h.sent[n];
    }
  }

  lemma StillBalanced(m: D.Map, s: State, i: Input, b: Books, n: nat)
    requires Fits(m, s, i) && Invariant(m, s, b) && n < |s.ports| && Open(m, s, i, b, n)
    requires Balanced(s, b, n) && !Slips(m, s, i, n)
    ensures Balanced(Clock(m, s, i), Record(m, s, i, b), n)
  {
    var l, p, stall := b.ledgers[n], s.ports[n], X.Stalls(s.bus, BusInput(m, s, i), n);
    Leaves(m, s, i, b, n);
    PortConserves(m, p, i.ms[n], stall);
    RequestsAppend(l.accepted, Entering(s, i, n));
    AnsweredAppend(l.answered, Shown(s, b, n));
    var rest := SentMoves(m, s, i, b, n);
    Tally(Requests(l.accepted), Answered(l.answered), Issued(m, s, i, n), rest, Requests(D.Buffered(p)),
          Answered(Shown(s, b, n)), Requests(Entering(s, i, n)), Requests(D.Buffered(Clock(m, s, i).ports[n])));
  }

  lemma StillMissing(m: D.Map, s: State, i: Input, b: Books, n: nat)
    requires Fits(m, s, i) && Invariant(m, s, b) && n < |s.ports| && Open(m, s, i, b, n)
    ensures Missing(Clock(m, s, i), Record(m, s, i, b), n)
  {
    Leaves(m, s, i, b, n);
    Lengths(m, s.ports[n], i.ms[n], X.Stalls(s.bus, BusInput(m, s, i), n));
    var rest := SentMoves(m, s, i, b, n);
    assert |b.h.sent[n]| == |Shown(s, b, n)| + |rest|;
  }

  lemma Lengths(m: D.Map, p: Port, i: MasterIn, stall: bool)
    requires i.cyc
    ensures |D.Buffered(p)| + (if i.stb && p.skid.Ready() then 1 else 0)
         == (if p.valid && !stall then 1 else 0) + |D.Buffered(PortClock(m, p, false, i, stall))|
  {
    PortConserves(m, p, i, stall);
    var y := Requests(if i.stb && p.skid.Ready() then [i.word] else []);
    var out := if p.valid && !stall then [X.Forwarded(AsRequest((p.addr, p.data)))] else [];
    assert |Requests(D.Buffered(p)) + y| == |out + Requests(D.Buffered(PortClock(m, p, false, i, stall)))|;
  }

  lemma PortKept(m: D.Map, s: State, i: Input, b: Books, n: nat)
    requires Fits(m, s, i) && Invariant(m, s, b) && X.WellBehaved(s.bus, BusInput(m, s, i), b.h) && n < |s.ports|
    ensures Kept(Clock(m, s, i), Record(m, s, i, b), n)
  {
    if i.reset || !i.ms[n].cyc {
      ClosedPort(m, s.ports[n], i.reset, i.ms[n], X.Stalls(s.bus, BusInput(m, s, i), n));
    } else if !s.bus.ms[n].err {
      StillMissing(m, s, i, b, n);
      if Record(m, s, i, b).ledgers[n].lost == 0 {
        StillBalanced(m, s, i, b, n);
      }
    }
  }

  /** One clock keeps the books of every port. */
  lemma ClockKeepsBooks(m: D.Map, s: State, i: Input, b: Books)
    requires Fits(m, s, i) && Invariant(m, s, b) && X.WellBehaved(s.bus, BusInput(m, s, i), b.h)
    ensures Invariant(m, Clock(m, s, i), Record(m, s, i, b))
  {
    X.ClockConserves(s.bus, BusInput(m, s, i), b.h);
    forall n | 0 <= n < |s.ports|
      ensures D.Consistent(m, Clock(m, s, i).ports[n]) && Kept(Clock(m, s, i), Record(m, s, i, b), n)
    {
      StaysConsistent(m, s.ports[n], i.reset, i.ms[n], X.Stalls(s.bus, BusInput(m, s, i), n));
      PortKept(m, s, i, b, n);
    }
  }

  // ----- every run

  function IdlePort(m: D.Map): Port {
    D.Stage(D.Skid.Skid(false, (0, Body(false, 0, 0))), false, seq(|m| + 1, k => false), 0, Body(false, 0, 0))
  }

  function Initial(m: D.Map, indices: seq<nat>, slaveIndices: seq<nat>, lg: nat): State {
    State(X.Initial(indices, slaveIndices, lg), seq(|indices|, n => IdlePort(m)))
  }

  function NoBooks(masters: nat, slaves: nat): Books {
    Books(X.NoHistory(masters, slaves), seq(masters, n => Ledger([], [], 0)))
  }

  /** The state and the books that a run leads to in which everybody plays by the rules. */
  ghost predicate Reaches(m: D.Map, s: State, b: Books, ins: seq<Input>, t: State, c: Books)
    decreases |ins|
  {
    if ins == [] then s == t && b == c
    else
      && Fits(m, s, ins[0]) && X.Sized(s.bus, b.h) && |b.ledgers| == |s.ports|
      && X.WellBehaved(s.bus, BusInput(m, s, ins[0]), b.h)
      && Reaches(m, Clock(m, s, ins[0]), Record(m, s, ins[0], b), ins[1..], t, c)
  }

  lemma {:induction false} AlwaysKept(m: D.Map, s: State, b: Books, ins: seq<Input>, t: State, c: Books)
    requires Invariant(m, s, b) && Reaches(m, s, b, ins, t, c)
    ensures Invariant(m, t, c)
    decreases |ins|
  {
    if ins != [] {
      ClockKeepsBooks(m, s, ins[0], b);
      AlwaysKept(m, Clock(m, s, ins[0]), Record(m, s, ins[0], b), ins[1..], t, c);
    }
  }

  lemma InitiallyKept(m: D.Map, indices: seq<nat>, slaveIndices: seq<nat>, lg: nat)
    requires X.InRange(indices, slaveIndices) && lg >= 3 && |m| == |slaveIndices|
    ensures Invariant(m, Initial(m, indices, slaveIndices, lg), NoBooks(|indices|, |slaveIndices|))
  {
    X.InitialConserved(indices, slaveIndices, lg);
  }

  /** The books balance exactly when no request has slipped. */
  lemma BalancedUnlessSlipped(s: State, b: Books, n: nat)
    requires X.Sized(s.bus, b.h) && |b.ledgers| == |s.ports| == |s.bus.ms| && n < |s.ports|
    requires Kept(s, b, n) && !b.h.aborting[n]
    ensures Balanced(s, b, n) <==> b.ledgers[n].lost == 0
  {
    var l := b.ledgers[n];
    if Balanced(s, b, n) {
      assert |Requests(l.accepted)| == |Answered(l.answered) + b.h.sent[n] + Requests(D.Buffered(s.ports[n]))|;
    }
  }

  /** A request as a slave gets it, of a word accepted at a port: a read carries no data. */
  predicate IsFor(q: X.Request, w: Word) {
    && q.addr == w.0 && q.we == w.1.we && q.sel == w.1.sel
    && q.data == if w.1.we then w.1.data else 0
  }

  /** The acknowledgements of a port are for its requests, first come, first served. */
  ghost predicate InOrder(s: State, b: Books, n: nat)
    requires X.Sized(s.bus, b.h) && |b.ledgers| == |s.ports| == |s.bus.ms| && n < |s.ports|
  {
    var l, r := b.ledgers[n], s.bus.ms[n];
    && |l.answered| + (if r.ack then 1 else 0) <= |l.accepted|
    && (forall k | 0 <= k < |l.answered| :: IsFor(l.answered[k].req, l.accepted[k]))
    && (r.ack ==> IsFor(b.h.answer[n].req, l.accepted[|l.answered|]) && b.h.answer[n].data == r.data)
  }

  lemma BalancedInOrder(m: D.Map, s: State, b: Books, n: nat)
    requires Invariant(m, s, b) && n < |s.ports| && Balanced(s, b, n)
    ensures InOrder(s, b, n)
  {
    var l := b.ledgers[n];
    var a, q := Answered(l.answered), Requests(l.accepted);
    assert q == a + (b.h.sent[n] + Requests(D.Buffered(s.ports[n])));
    forall k | 0 <= k < |l.answered|
      ensures IsFor(l.answered[k].req, l.accepted[k])
    {
      assert a[k] == q[k];
    }
    if s.bus.ms[n].ack {
      X.AckMeansSent(s.bus, b.h, n);
      assert q[|a|] == b.h.sent[n][0];
    }
  }

  /**
   * In every run from reset, for every master that is not being shown out after an error: of the
   * requests accepted at its port since it opened its cycle, those that have not been answered are in
   * the crossbar, at the slave or in the port, but for those that slipped. If none slipped, each
   * acknowledgement it gets is for the oldest request it has had no answer to, with the data that the
   * slave gave for that request.
   */
  lemma EveryAnswerIsInOrder(m: D.Map, indices: seq<nat>, slaveIndices: seq<nat>, lg: nat, ins: seq<Input>, t: State, c: Books)
    requires X.InRange(indices, slaveIndices) && lg >= 3 && |m| == |slaveIndices|
    requires Reaches(m, Initial(m, indices, slaveIndices, lg), NoBooks(|indices|, |slaveIndices|), ins, t, c)
    ensures Invariant(m, t, c)
    ensures forall n | 0 <= n < |t.ports| && !c.h.aborting[n] ::
              && Missing(t, c, n)
              && (Balanced(t, c, n) <==> c.ledgers[n].lost == 0)
              && (c.ledgers[n].lost == 0 ==> InOrder(t, c, n))
  {
    InitiallyKept(m, indices, slaveIndices, lg);
    AlwaysKept(m, Initial(m, indices, slaveIndices, lg), NoBooks(|indices|, |slaveIndices|), ins, t, c);
    forall n | 0 <= n < |t.ports| && !c.h.aborting[n]
      ensures Missing(t, c, n) && (Balanced(t, c, n) <==> c.ledgers[n].lost == 0)
      ensures c.ledgers[n].lost == 0 ==> InOrder(t, c, n)
    {
      BalancedUnlessSlipped(t, c, n);
      if c.ledgers[n].lost == 0 {
        BalancedInOrder(m, t, c, n);
      }
    }
  }

  /** A master that leaves room in its counter has no request slip. */
  lemma RoomKeepsRequests(m: D.Map, s: State, i: Input, b: Books, n: nat)
    requires Fits(m, s, i) && Invariant(m, s, b) && n < |s.ports| && !b.h.aborting[n]
    requires |b.ledgers[n].accepted| - |b.ledgers[n].answered| < Pow2(s.bus.lg) - 1
    ensures !Slips(m, s, i, n)
  {
    assert X.Counted(s.bus, b.h, n);
  }

  // ----- requests reach the slave of their address

  /** Whatever a slave has been asked is in its region. */
  ghost predicate AtHome(m: D.Map, s: State, h: X.History, k: nat)
    requires X.Sized(s.bus, h) && k < |s.bus.ss|
  {
    && (s.bus.ss[k].stb ==> D.Target(m, s.bus.ss[k].req.addr) == k)
    && (forall j | 0 <= j < |h.atSlave[k]| :: D.Target(m, h.atSlave[k][j].addr) == k)
  }

  /** What reaches a slave over one clock is in its region. */
  lemma StaysAtHome(m: D.Map, s: State, i: Input, h: X.History, k: nat)
    requires Fits(m, s, i) && X.Sized(s.bus, h) && k < |s.bus.ss| && AtHome(m, s, h, k)
    ensures AtHome(m, Clock(m, s, i), X.Record(s.bus, BusInput(m, s, i), h), k)
    ensures forall j | 0 <= j < |X.Outstanding(s.bus, BusInput(m, s, i), h, k)| ::
              D.Target(m, X.Outstanding(s.bus, BusInput(m, s, i), h, k)[j].addr) == k
  {
    var q := X.Outstanding(s.bus, BusInput(m, s, i), h, k);
    assert X.NextAtSlave(s.bus, BusInput(m, s, i), h, k) == q || X.NextAtSlave(s.bus, BusInput(m, s, i), h, k) == []
        || (q != [] && X.NextAtSlave(s.bus, BusInput(m, s, i), h, k) == q[1..]);
  }

  lemma {:induction false} AlwaysAtHome(m: D.Map, s: State, b: Books, ins: seq<Input>, t: State, c: Books)
    requires X.Sized(s.bus, b.h) && Reaches(m, s, b, ins, t, c)
    requires forall k | 0 <= k < |s.bus.ss| :: AtHome(m, s, b.h, k)
    ensures X.Sized(t.bus, c.h) && |t.bus.ss| == |s.bus.ss|
    ensures forall k | 0 <= k < |t.bus.ss| :: AtHome(m, t, c.h, k)
    decreases |ins|
  {
    if ins != [] {
      forall k | 0 <= k < |s.bus.ss|
        ensures AtHome(m, Clock(m, s, ins[0]), Record(m, s, ins[0], b).h, k)
      {
        StaysAtHome(m, s, ins[0], b.h, k);
      }
      AlwaysAtHome(m, Clock(m, s, ins[0]), Record(m, s, ins[0], b), ins[1..], t, c);
    }
  }

  /** In every run from reset, no slave is asked for an address outside its region. */
  lemma RequestsReachTheirSlave(m: D.Map, indices: seq<nat>, slaveIndices: seq<nat>, lg: nat, ins: seq<Input>, t: State, c: Books)
    requires X.InRange(indices, slaveIndices) && |m| == |slaveIndices|
    requires Reaches(m, Initial(m, indices, slaveIndices, lg), NoBooks(|indices|, |slaveIndices|), ins, t, c)
    ensures |t.bus.ss| == |m| == |c.h.atSlave|
    ensures forall k | 0 <= k < |m| && t.bus.ss[k].stb :: D.Matches(m[k], t.bus.ss[k].req.addr)
    ensures forall k, j | 0 <= k < |m| && 0 <= j < |c.h.atSlave[k]| :: D.Matches(m[k], c.h.atSlave[k][j].addr)
  {
    AlwaysAtHome(m, Initial(m, indices, slaveIndices, lg), NoBooks(|indices|, |slaveIndices|), ins, t, c);
    forall k | 0 <= k < |m|
      ensures t.bus.ss[k].stb ==> D.Matches(m[k], t.bus.ss[k].req.addr)
      ensures forall j | 0 <= j < |c.h.atSlave[k]| :: D.Matches(m[k], c.h.atSlave[k][j].addr)
    {
      assert AtHome(m, t, c.h, k);
    }
  }

  /** A master's acknowledgement comes from the slave in whose region the request lies. */
  lemma AnswerFromHome(m: D.Map, s: State, i: Input, b: Books, n: nat)
    requires Fits(m, s, i) && Invariant(m, s, b) && X.WellBehaved(s.bus, BusInput(m, s, i), b.h) && n < |s.ports|
    requires Clock(m, s, i).bus.ms[n].ack
    requires forall k | 0 <= k < |m| :: AtHome(m, s, b.h, k)
    ensures var k := s.bus.ms[n].index;
            k < |m| && D.Matches(m[k], Record(m, s, i, b).h.answer[n].req.addr)
  {
    var k, bi := s.bus.ms[n].index, BusInput(m, s, i);
    assert X.SlaveAcks(s.bus, bi, k);
    StaysAtHome(m, s, i, b.h, k);
    assert X.Outstanding(s.bus, bi, b.h, k) != [];
  }

  // ----- requests come through the ports

  /** The words accepted at any port over a run. */
  ghost function AllAccepted(m: D.Map, s: State, ins: seq<Input>): set<Word>
    decreases |ins|
  {
    if ins == [] || !Fits(m, s, ins[0]) then {}
    else
      (set n | 0 <= n < |s.ports| && Entering(s, ins[0], n) != [] :: ins[0].ms[n].word)
      + AllAccepted(m, Clock(m, s, ins[0]), ins[1..])
  }

  /** What waits in the ports has been accepted, and so has what the slaves are given. */
  ghost predicate Sourced(pool: set<Word>, s: State) {
    && (forall n | 0 <= n < |s.ports| && s.ports[n].valid :: (s.ports[n].addr, s.ports[n].data) in pool)
    && (forall n | 0 <= n < |s.ports| && s.ports[n].skid.full :: s.ports[n].skid.held in pool)
    && (forall k | 0 <= k < |s.bus.ss| && s.bus.ss[k].stb :: exists w :: w in pool && IsFor(s.bus.ss[k].req, w))
  }

  lemma StrobeSourced(m: D.Map, pool: set<Word>, s: State, i: Input, k: nat)
    requires Fits(m, s, i) && Sourced(pool, s) && k < |s.bus.ss| && Clock(m, s, i).bus.ss[k].stb
    ensures exists w :: w in pool && IsFor(Clock(m, s, i).bus.ss[k].req, w)
  {
    var o := s.bus.ss[k].index;
    if !X.SlaveStalls(s.bus, BusInput(m, s, i), k) {
      assert IsFor(Clock(m, s, i).bus.ss[k].req, (s.ports[o].addr, s.ports[o].data));
    }
  }

  lemma ClockKeepsSourced(m: D.Map, pool: set<Word>, s: State, i: Input, now: set<Word>)
    requires Fits(m, s, i) && Sourced(pool, s)
    requires now == set n | 0 <= n < |s.ports| && Entering(s, i, n) != [] :: i.ms[n].word
    ensures Sourced(pool + now, Clock(m, s, i))
  {
    var t := Clock(m, s, i);
    forall k | 0 <= k < |t.bus.ss| && t.bus.ss[k].stb
      ensures exists w :: w in pool + now && IsFor(t.bus.ss[k].req, w)
    {
      StrobeSourced(m, pool, s, i, k);
      var w :| w in pool && IsFor(t.bus.ss[k].req, w);
      assert w in pool + now;
    }
    forall n | 0 <= n < |t.ports|
      ensures t.ports[n].valid ==> (t.ports[n].addr, t.ports[n].data) in pool + now
      ensures t.ports[n].skid.full ==> t.ports[n].skid.held in pool + now
    {
      if i.ms[n].stb && s.ports[n].skid.Ready() {
        assert Entering(s, i, n) != [];
      }
      PortSourced(m, pool + now, s.ports[n], i.reset, i.ms[n], X.Stalls(s.bus, BusInput(m, s, i), n));
    }
  }

  lemma PortSourced(m: D.Map, pool: set<Word>, p: Port, reset: bool, i: MasterIn, stall: bool)
    requires p.valid ==> (p.addr, p.data) in pool
    requires p.skid.full ==> p.skid.held in pool
    requires i.stb && p.skid.Ready() ==> i.word in pool
    ensures var q := PortClock(m, p, reset, i, stall);
            (q.valid ==> (q.addr, q.data) in pool) && (q.skid.full ==> q.skid.held in pool)
  {
    assert (i.word.0, i.word.1) == i.word;
    assert p.skid.held == (p.skid.held.0, p.skid.held.1);
  }

  lemma {:induction false} AlwaysSourced(m: D.Map, pool: set<Word>, s: State, b: Books, ins: seq<Input>, t: State, c: Books)
    requires Sourced(pool, s) && Reaches(m, s, b, ins, t, c)
    ensures Sourced(pool + AllAccepted(m, s, ins), t)
    decreases |ins|
  {
    if ins == [] {
      assert pool + {} == pool;
    } else {
      var now := set n | 0 <= n < |s.ports| && Entering(s, ins[0], n) != [] :: ins[0].ms[n].word;
      ClockKeepsSourced(m, pool, s, ins[0], now);
      var rest := AllAccepted(m, Clock(m, s, ins[0]), ins[1..]);
      AlwaysSourced(m, pool + now, Clock(m, s, ins[0]), Record(m, s, ins[0], b), ins[1..], t, c);
      assert pool + now + rest == pool + (now + rest);
    }
  }

  /**
   * In every run from reset, what a slave is given some port has accepted: the same address, kind of
   * access and byte selects, and of a write the same data; of a read, none.
   */
  lemma RequestsWereAccepted(m: D.Map, indices: seq<nat>, slaveIndices: seq<nat>, lg: nat, ins: seq<Input>, t: State, c: Books)
    requires X.InRange(indices, slaveIndices) && |m| == |slaveIndices|
    requires Reaches(m, Initial(m, indices, slaveIndices, lg), NoBooks(|indices|, |slaveIndices|), ins, t, c)
    ensures forall k | 0 <= k < |t.bus.ss| && t.bus.ss[k].stb ::
              exists w :: w in AllAccepted(m, Initial(m, indices, slaveIndices, lg), ins) && IsFor(t.bus.ss[k].req, w)
  {
    var s := Initial(m, indices, slaveIndices, lg);
    AlwaysSourced(m, {}, s, NoBooks(|indices|, |slaveIndices|), ins, t, c);
    assert {} + AllAccepted(m, s, ins) == AllAccepted(m, s, ins);
  }

  // ----- a request that slips

  /** One master, whose slaves neither stall nor answer. */
  function Alone(stb: bool, w: Word): Input {
    Input(false, [MasterIn(true, stb, w)], [X.IDLE_SLAVE, X.IDLE_SLAVE])
  }

  /** A master and two slaves; the last request accepted is in the decoder, and `sent` more are at the first slave. */
  ghost predicate Asking(m: D.Map, s: State, b: Books, w: Word, sent: nat) {
    && Invariant(m, s, b) && |s.ports| == 1 && |m| == 2 && !b.h.aborting[0]
    && !s.bus.ms[0].err && !s.bus.ms[0].ack && |b.h.sent[0]| == sent
    && s.ports[0].valid && (s.ports[0].addr, s.ports[0].data) == w && !s.ports[0].skid.full
    && LastAccepted(b.ledgers[0], w)
  }

  ghost predicate LastAccepted(l: Ledger, w: Word) {
    l.lost == 0 && l.answered == [] && l.accepted != [] && l.accepted[|l.accepted| - 1] == w
  }

  /** A clock of such a system. */
  lemma AloneFits(m: D.Map, s: State, b: Books, stb: bool, w: Word)
    requires Invariant(m, s, b) && |s.ports| == 1 && |m| == 2 && !b.h.aborting[0]
    ensures Fits(m, s, Alone(stb, w)) && X.WellBehaved(s.bus, BusInput(m, s, Alone(stb, w)), b.h)
    ensures Invariant(m, Clock(m, s, Alone(stb, w)), Record(m, s, Alone(stb, w), b))
  {
    assert X.OneGrant(s.bus, 0);
    ClockKeepsBooks(m, s, Alone(stb, w), b);
  }

  lemma FirstRequest(m: D.Map, lg: nat, w: Word)
    requires |m| == 2 && lg >= 3
    ensures var s, b, i := Initial(m, [0], [0, 0], lg), NoBooks(1, 2), Alone(true, w);
            && Fits(m, s, i) && X.WellBehaved(s.bus, BusInput(m, s, i), b.h)
            && Asking(m, Clock(m, s, i), Record(m, s, i, b), w, 0)
            && Clock(m, s, i).bus.ms[0].grant == {}
  {
    var s, b := Initial(m, [0], [0, 0], lg), NoBooks(1, 2);
    InitiallyKept(m, [0], [0, 0], lg);
    AloneFits(m, s, b, true, w);
  }

  lemma Granted(m: D.Map, s: State, b: Books, w: Word)
    requires Asking(m, s, b, w, 0) && s.bus.ms[0].grant == {} && D.Target(m, w.0) == 0
    ensures var i := Alone(false, w);
            && Fits(m, s, i) && X.WellBehaved(s.bus, BusInput(m, s, i), b.h)
            && Asking(m, Clock(m, s, i), Record(m, s, i, b), w, 0)
            && Clock(m, s, i).bus.ms[0].grant == {0}
  {
    AloneFits(m, s, b, false, w);
    assert X.OneGrant(s.bus, 0);
  }

  lemma OneMore(m: D.Map, s: State, b: Books, w: Word, k: nat, v: Word)
    requires Asking(m, s, b, w, k) && s.bus.ms[0].grant == {0} && D.Target(m, w.0) == 0 && k < Pow2(s.bus.lg) - 1
    ensures var i := Alone(true, v);
            && Fits(m, s, i) && X.WellBehaved(s.bus, BusInput(m, s, i), b.h)
            && Asking(m, Clock(m, s, i), Record(m, s, i, b), v, k + 1)
            && Clock(m, s, i).bus.ms[0].grant == {0}
  {
    AloneFits(m, s, b, true, v);
    assert X.OneGrant(s.bus, 0) && X.Owns(s.bus, 0, 0) && X.Counted(s.bus, b.h, 0);
  }

  lemma Slipped(m: D.Map, s: State, b: Books, w: Word)
    requires Asking(m, s, b, w, Pow2(s.bus.lg) - 1) && s.bus.ms[0].grant == {0} && D.Target(m, w.0) == 1
    ensures var i := Alone(false, w);
            && Fits(m, s, i) && X.WellBehaved(s.bus, BusInput(m, s, i), b.h)
            && Gone(m, Clock(m, s, i), Record(m, s, i, b), w)
  {
    AloneFits(m, s, b, false, w);
    assert X.OneGrant(s.bus, 0) && X.Owns(s.bus, 0, 0) && X.Counted(s.bus, b.h, 0);
  }

  /** The request accepted last is not in the port, and the slave it was for has nothing. */
  ghost predicate Gone(m: D.Map, t: State, c: Books, w: Word) {
    && Invariant(m, t, c) && |t.ports| == 1 && |m| == 2 && !c.h.aborting[0]
    && c.ledgers[0].lost == 1 && c.ledgers[0].answered == []
    && c.ledgers[0].accepted != [] && c.ledgers[0].accepted[|c.ledgers[0].accepted| - 1] == w
    && D.Buffered(t.ports[0]) == [] && !t.bus.ss[1].stb && c.h.atSlave[1] == []
    && |c.h.sent[0]| == Pow2(t.bus.lg) - 1
  }

  lemma ReachesOn(m: D.Map, s: State, b: Books, i: Input, ins: seq<Input>, t: State, c: Books)
    requires Fits(m, s, i) && X.Sized(s.bus, b.h) && |b.ledgers| == |s.ports|
    requires X.WellBehaved(s.bus, BusInput(m, s, i), b.h)
    requires Reaches(m, Clock(m, s, i), Record(m, s, i, b), ins, t, c)
    ensures Reaches(m, s, b, [i] + ins, t, c)
  {
    assert ([i] + ins)[1..] == ins;
  }

  /** Requests for the first slave until its counter is full, then one for the second. */
  lemma {:induction false} AsksOn(m: D.Map, s: State, b: Books, v: Word, w: Word, k: nat) returns (ins: seq<Input>, t: State, c: Books)
    requires D.Target(m, v.0) == 0 && D.Target(m, w.0) == 1 && k < Pow2(s.bus.lg)
    requires Asking(m, s, b, if k < Pow2(s.bus.lg) - 1 then v else w, k) && s.bus.ms[0].grant == {0}
    ensures Reaches(m, s, b, ins, t, c) && Gone(m, t, c, w) && t.bus.lg == s.bus.lg
    decreases Pow2(s.bus.lg) - k
  {
    var i, rest;
    if k < Pow2(s.bus.lg) - 1 {
      var next := if k + 1 < Pow2(s.bus.lg) - 1 then v else w;
      i := Alone(true, next);
      OneMore(m, s, b, v, k, next);
      rest, t, c := AsksOn(m, Clock(m, s, i), Record(m, s, i, b), v, w, k + 1);
    } else {
      i, rest := Alone(false, w), [];
      Slipped(m, s, b, w);
      t, c := Clock(m, s, i), Record(m, s, i, b);
    }
    ins := [i] + rest;
    ReachesOn(m, s, b, i, rest, t, c);
  }

  /**
   * It does happen, whatever the counter's width: after as many requests to one slave as the counter
   * holds, a request to another one is accepted at the port and is then nowhere.
   */
  lemma RequestSlips(m: D.Map, lg: nat, v: Word, w: Word) returns (ins: seq<Input>, t: State, c: Books)
    requires |m| == 2 && lg >= 3 && D.Target(m, v.0) == 0 && D.Target(m, w.0) == 1
    ensures Reaches(m, Initial(m, [0], [0, 0], lg), NoBooks(1, 2), ins, t, c) && Gone(m, t, c, w) && t.bus.lg == lg
  {
    var s0, b0 := Initial(m, [0], [0, 0], lg), NoBooks(1, 2);
    var first, second := Alone(true, v), Alone(false, v);
    FirstRequest(m, lg, v);
    var s1, b1 := Clock(m, s0, first), Record(m, s0, first, b0);
    Granted(m, s1, b1, v);
    X.TopIsLarge(lg);
    var rest;
    rest, t, c := AsksOn(m, Clock(m, s1, second), Record(m, s1, second, b1), v, w, 0);
    ReachesOn(m, s1, b1, second, rest, t, c);
    ReachesOn(m, s0, b0, first, [second] + rest, t, c);
    ins := [first] + ([second] + rest);
  }

  /** The address map of the repository's smaller crossbar, of one master and two slaves. */
  const WBU: D.Map := [D.Region(0, 0x800000, true), D.Region(0x800000, 0x800000, true)]

  lemma {:induction false} WithItself(x: nat)
    ensures Xor(0, x) == x && Xor(x, x) == 0 && And(x, x) == x
  {
    if x > 0 {
      WithItself(x / 2);
    }
  }

  lemma WbuTargets()
    ensures D.Target(WBU, 0) == 0 && D.Target(WBU, 0x800000) == 1
  {
    WithItself(0x800000);
    WithItself(0);
    assert !D.Matches(WBU[1], 0);
  }

  /** There, with its six-bit counters, the 64th request is lost when it is the first for the other slave. */
  lemma WbuRequestSlips(v: Body, w: Body) returns (ins: seq<Input>, t: State, c: Books)
    ensures Reaches(WBU, Initial(WBU, [0], [0, 0], 6), NoBooks(1, 2), ins, t, c) && Gone(WBU, t, c, (0x800000, w))
    ensures |c.ledgers[0].accepted| == 64 && |c.h.sent[0]| == 63
  {
    WbuTargets();
    ins, t, c := RequestSlips(WBU, 6, (0, v), (0x800000, w));
    assert Pow2(6) == 64 by { Pow2Add(3, 3); assert Pow2(3) == 8; }
  }
}
