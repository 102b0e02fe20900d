/** The on-chip memory device with its extra clock: requests are registered before they are carried out. */
module MemDev {
  import opened Memory

  /** The inputs of one clock. */
  datatype Input = Input(reset: bool, cyc: bool, stb: bool, we: bool, addr: nat, data: Word, sel: Select)

  datatype State = Registers(
    lastWstb: bool, lastStb: bool, lastAddr: nat, lastData: Word, lastSel: Select,
    mem: seq<Word>, ack: bool, data: Word)

  predicate WellFormed(s: State) {
    s.lastAddr < |s.mem|
  }

  /** One rising edge: every register takes its new value from the old ones. */
  function Clock(s: State, i: Input): (t: State)
    requires WellFormed(s) && i.addr < |s.mem|
    ensures WellFormed(t) && |t.mem| == |s.mem|
  {
    Registers(
      i.stb && i.we, !i.reset && i.stb, i.addr, i.data, i.sel,
      if s.lastWstb then Store(s.mem, s.lastAddr, s.lastData, s.lastSel) else s.mem,
      !i.reset && s.lastStb && i.cyc,
      s.mem[s.lastAddr])
  }

  function Run(s: State, ins: seq<Input>): (t: State)
    requires WellFormed(s) && forall i | i in ins :: i.addr < |s.mem|
    ensures WellFormed(t) && |t.mem| == |s.mem|
  {
    if ins == [] then s else Clock(Run(s, ins[..|ins| - 1]), ins[|ins| - 1])
  }

  // ----- the sequential memory

  /** The memory after the writes among `ins`, carried out as they are requested. */
  ghost function After(mem: seq<Word>, ins: seq<Input>): (m: seq<Word>)
    requires forall i | i in ins :: i.addr < |mem|
    ensures |m| == |mem|
  {
    if ins == [] then mem
    else
      var prior, i := After(mem, ins[..|ins| - 1]), ins[|ins| - 1];
      if i.stb && i.we then Store(prior, i.addr, i.data, i.sel) else prior
  }

  /** A device that has just come out of a clock without a request. */
  predicate Rested(s: State) {
    WellFormed(s) && !s.lastWstb && !s.lastStb
  }

  /** The device's memory is one request behind the sequential one. */
  lemma {:induction false} OneRequestBehind(s: State, ins: seq<Input>)
    requires Rested(s) && ins != []
    requires forall i | i in ins :: i.addr < |s.mem|
    ensures var (n, t) := (|ins| - 1, Run(s, ins));
            && t.mem == After(s.mem, ins[..n])
            && t.lastWstb == (ins[n].stb && ins[n].we) && t.lastStb == (!ins[n].reset && ins[n].stb)
            && t.lastAddr == ins[n].addr && t.lastData == ins[n].data && t.lastSel == ins[n].sel
  {
    var n := |ins| - 1;
    if n > 0 {
      OneRequestBehind(s, ins[..n]);
      assert ins[..n][..n - 1] == ins[..n - 1];
    }
  }

  /**
   * Two clocks after a request, and only then, comes its acknowledgment, unless the cycle has been
   * dropped or the device reset; the data is what a sequential memory would have read when the
   * request was made, every earlier write included.
   */
  lemma RefinesSequentialMemory(s: State, ins: seq<Input>, n: nat)
    requires Rested(s) && n + 1 < |ins|
    requires forall i | i in ins :: i.addr < |s.mem|
    ensures var t := Run(s, ins[..n + 2]);
            && t.ack == (ins[n].stb && !ins[n].reset && ins[n + 1].cyc && !ins[n + 1].reset)
            && t.data == After(s.mem, ins[..n])[ins[n].addr]
  {
    OneRequestBehind(s, ins[..n + 1]);
    assert ins[..n + 2][..n + 1] == ins[..n + 1];
    assert ins[..n + 1][..n] == ins[..n];
  }

  /** A byte that has been written reads back until it is written again. */
  lemma {:induction false} ReadsBackLastWrite(mem: seq<Word>, ins: seq<Input>, k: nat, a: nat)
    requires forall i | i in ins :: i.addr < |mem|
    requires k < |ins| && ins[k].stb && ins[k].we && ins[k].addr == a
    requires forall j | k < j < |ins| :: !(ins[j].stb && ins[j].we && ins[j].addr == a)
    ensures var was, now, i := After(mem, ins[..k])[a], After(mem, ins)[a], ins[k];
            && now.b3 == (if i.sel.s3 then i.data.b3 else was.b3) && now.b2 == (if i.sel.s2 then i.data.b2 else was.b2)
            && now.b1 == (if i.sel.s1 then i.data.b1 else was.b1) && now.b0 == (if i.sel.s0 then i.data.b0 else was.b0)
    decreases |ins|
  {
    var n := |ins| - 1;
    if k < n {
      ReadsBackLastWrite(mem, ins[..n], k, a);
      assert ins[..n][..k] == ins[..k];
    }
  }

  /** A word that is not written stays as it was. */
  lemma {:induction false} KeepsUnwritten(mem: seq<Word>, ins: seq<Input>, a: nat)
    requires a < |mem| && forall i | i in ins :: i.addr < |mem|
    requires forall j | 0 <= j < |ins| :: !(ins[j].stb && ins[j].we && ins[j].addr == a)
    ensures After(mem, ins)[a] == mem[a]
    decreases |ins|
  {
    if ins != [] {
      KeepsUnwritten(mem, ins[..|ins| - 1], a);
    }
  }

  class Device {
    var lastWstb: bool
    var lastStb: bool
    var lastAddr: nat
    var lastData: Word
    var lastSel: Select
    const mem: array<Word>
    var ack: bool
    var data: Word

    ghost function Snapshot(): State
      reads this, mem
    {
      Registers(lastWstb, lastStb, lastAddr, lastData, lastSel, mem[..], ack, data)
    }

    constructor (words: nat, first: Word)
      requires words > 0
      ensures Rested(Snapshot()) && fresh(mem) && mem.Length == words && !ack
    {
      lastWstb, lastStb, lastAddr, ack, data := false, false, 0, false, first;
      lastData, lastSel := first, Select(false, false, false, false);
      mem := new Word[words](_ => first);
    }

    method Tick(i: Input)
      requires WellFormed(Snapshot()) && i.addr < mem.Length
      modifies this, mem
      ensures Snapshot() == Clock(old(Snapshot()), i)
    {
      data := mem[lastAddr];
      ack := !i.reset && lastStb && i.cyc;
      if lastWstb {
        mem[lastAddr] := Merge(mem[lastAddr], lastData, lastSel);
      }
      lastWstb := i.stb && i.we;
      lastStb := !i.reset && i.stb;
      lastAddr, lastData, lastSel := i.addr, i.data, i.sel;
    }
  }
}
