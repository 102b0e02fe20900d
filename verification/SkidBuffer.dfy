/** The skid buffer, with its output combinational or registered. */
module SkidBuffer {

  /** The inputs of one clock: `valid`/`data` from upstream, `ready` from downstream. */
  datatype Input<T> = Input(reset: bool, valid: bool, data: T, ready: bool)

  predicate NoReset<T>(ins: seq<Input<T>>) {
    forall i | 0 <= i < |ins| :: !ins[i].reset
  }

  // ----- OPT_OUTREG = 0

  /** `r_valid` and `r_data` */
  datatype Skid<T> = Skid(full: bool, held: T) {
    predicate Ready() { !full }

    predicate Valid(i: Input<T>) { !i.reset && (i.valid || full) }

    function Data(i: Input<T>): T { if full then held else i.data }

    function Clock(i: Input<T>): Skid<T> {
      Skid(
        if i.reset then false
        else if (i.valid && Ready()) && (Valid(i) && !i.ready) then true
        else if i.ready then false
        else full,
        if Ready() then i.data else held)
    }

    function Buffered(): seq<T> { if full then [held] else [] }
  }

  function Run<T>(s: Skid<T>, ins: seq<Input<T>>): Skid<T>
    decreases |ins|
  {
    if ins == [] then s else Run(s.Clock(ins[0]), ins[1..])
  }

  function Accepted<T>(s: Skid<T>, ins: seq<Input<T>>): seq<T>
    decreases |ins|
  {
    if ins == [] then []
    else (if ins[0].valid && s.Ready() then [ins[0].data] else []) + Accepted(s.Clock(ins[0]), ins[1..])
  }

  function Delivered<T>(s: Skid<T>, ins: seq<Input<T>>): seq<T>
    decreases |ins|
  {
    if ins == [] then []
    else
      (if s.Valid(ins[0]) && ins[0].ready then [s.Data(ins[0])] else []) + Delivered(s.Clock(ins[0]), ins[1..])
  }

  /** Nothing is lost, repeated or reordered; at most one word waits. */
  lemma {:induction false} Conserves<T>(s: Skid<T>, ins: seq<Input<T>>)
    requires NoReset(ins)
    ensures s.Buffered() + Accepted(s, ins) == Delivered(s, ins) + Run(s, ins).Buffered()
    decreases |ins|
  {
    if ins != [] {
      var i, t := ins[0], s.Clock(ins[0]);
      Conserves(t, ins[1..]);
      var a := if i.valid && s.Ready() then [i.data] else [];
      var d := if s.Valid(i) && i.ready then [s.Data(i)] else [];
      assert s.Buffered() + a == d + t.Buffered();
      Telescope(s.Buffered(), a, d, t.Buffered(), Accepted(t, ins[1..]), Delivered(t, ins[1..]), Run(s, ins).Buffered());
    }
  }

  /** Joining the books of the first clock to those of the others. */
  lemma Telescope<T>(b0: seq<T>, a: seq<T>, d: seq<T>, b1: seq<T>, as_: seq<T>, ds: seq<T>, b2: seq<T>)
    requires b0 + a == d + b1 && b1 + as_ == ds + b2
    ensures b0 + (a + as_) == (d + ds) + b2
  {
    assert b0 + (a + as_) == (b0 + a) + as_ == d + (b1 + as_);
    assert d + (ds + b2) == (d + ds) + b2;
  }

  /** A word the other side is not ready for stays on offer. */
  lemma StallHolds<T>(s: Skid<T>, i: Input<T>, j: Input<T>)
    requires !i.reset && !j.reset && s.Valid(i) && !i.ready
    ensures s.Clock(i).Valid(j) && s.Clock(i).Data(j) == s.Data(i)
  {
  }

  /** The words offered over a run. */
  function Offered<T>(ins: seq<Input<T>>): seq<T>
    decreases |ins|
  {
    if ins == [] then [] else (if ins[0].valid then [ins[0].data] else []) + Offered(ins[1..])
  }

  /** Nothing holds the other side up: when it is ready all along, every word goes through in the clock it is offered. */
  lemma {:induction false} KeepsUp<T>(s: Skid<T>, ins: seq<Input<T>>)
    requires NoReset(ins) && s.Ready() && forall k | 0 <= k < |ins| :: ins[k].ready
    ensures Accepted(s, ins) == Offered(ins) == Delivered(s, ins) && Run(s, ins).Ready()
    decreases |ins|
  {
    if ins != [] {
      KeepsUp(s.Clock(ins[0]), ins[1..]);
    }
  }

  /** A clock in which the other side is ready leaves room again. */
  lemma Recovers<T>(s: Skid<T>, i: Input<T>)
    requires i.ready || i.reset
    ensures s.Clock(i).Ready()
    ensures !i.reset && (i.valid || s.full) ==> s.Valid(i)
  {
  }

  // ----- OPT_OUTREG = 1

  /** As above, with `o_valid` and `o_data` registered. */
  datatype Registered<T> = Registered(full: bool, held: T, valid: bool, data: T) {
    predicate Ready() { !full }

    function Clock(i: Input<T>): Registered<T> {
      Registered(
        if i.reset then false
        else if (i.valid && Ready()) && (valid && !i.ready) then true
        else if i.ready then false
        else full,
        if Ready() then i.data else held,
        if i.reset then false else if !valid || i.ready then i.valid || full else valid,
        if !valid || i.ready then (if full then held else i.data) else data)
    }

    function Buffered(): seq<T> {
      (if valid then [data] else []) + (if full then [held] else [])
    }

    /** The buffer only fills behind an occupied output. */
    predicate Reachable() { full ==> valid }
  }

  function RunRegistered<T>(s: Registered<T>, ins: seq<Input<T>>): Registered<T>
    decreases |ins|
  {
    if ins == [] then s else RunRegistered(s.Clock(ins[0]), ins[1..])
  }

  function AcceptedRegistered<T>(s: Registered<T>, ins: seq<Input<T>>): seq<T>
    decreases |ins|
  {
    if ins == [] then []
    else (if ins[0].valid && s.Ready() then [ins[0].data] else []) + AcceptedRegistered(s.Clock(ins[0]), ins[1..])
  }

  function DeliveredRegistered<T>(s: Registered<T>, ins: seq<Input<T>>): seq<T>
    decreases |ins|
  {
    if ins == [] then []
    else (if s.valid && ins[0].ready then [s.data] else []) + DeliveredRegistered(s.Clock(ins[0]), ins[1..])
  }

  /** With a registered output, nothing is lost either, and at most two words wait. */
  lemma {:induction false} ConservesRegistered<T>(s: Registered<T>, ins: seq<Input<T>>)
    requires s.Reachable() && NoReset(ins)
    ensures s.Buffered() + AcceptedRegistered(s, ins)
         == DeliveredRegistered(s, ins) + RunRegistered(s, ins).Buffered()
    ensures RunRegistered(s, ins).Reachable() && |RunRegistered(s, ins).Buffered()| <= 2
    decreases |ins|
  {
    if ins != [] {
      var i, t := ins[0], s.Clock(ins[0]);
      ConservesRegistered(t, ins[1..]);
      var a := if i.valid && s.Ready() then [i.data] else [];
      var d := if s.valid && i.ready then [s.data] else [];
      assert s.Buffered() + a == d + t.Buffered();
      Telescope(s.Buffered(), a, d, t.Buffered(), AcceptedRegistered(t, ins[1..]),
                DeliveredRegistered(t, ins[1..]), RunRegistered(s, ins).Buffered());
    }
  }

  /** With a registered output, too, every word is accepted in the clock it is offered; all but the last have gone through. */
  lemma {:induction false} KeepsUpRegistered<T>(s: Registered<T>, ins: seq<Input<T>>)
    requires NoReset(ins) && s.Ready() && forall k | 0 <= k < |ins| :: ins[k].ready
    ensures AcceptedRegistered(s, ins) == Offered(ins) && RunRegistered(s, ins).Ready()
    ensures |RunRegistered(s, ins).Buffered()| <= 1
    decreases |ins|
  {
    if ins != [] {
      KeepsUpRegistered(s.Clock(ins[0]), ins[1..]);
    }
  }

  lemma StallHoldsRegistered<T>(s: Registered<T>, i: Input<T>)
    requires !i.reset && s.valid && !i.ready
    ensures s.Clock(i).valid && s.Clock(i).data == s.data
  {
  }

  // ----- the registers

  class Buffer<T> {
    var rValid: bool
    var rData: T

    ghost function State(): Skid<T>
      reads this
    {
      Skid(rValid, rData)
    }

    constructor (idle: T)
      ensures State() == Skid(false, idle)
    {
      rValid, rData := false, idle;
    }

    /** The outputs are those before the edge. */
    method Tick(i: Input<T>) returns (ready: bool, valid: bool, data: T)
      modifies this
      ensures State() == old(State()).Clock(i)
      ensures ready == old(State()).Ready() && valid == old(State()).Valid(i) && data == old(State()).Data(i)
    {
      ready := !rValid;
      valid := !i.reset && (i.valid || rValid);
      data := if rValid then rData else i.data;
      if i.reset {
        rValid := false;
      } else if (i.valid && ready) && (valid && !i.ready) {
        rValid := true;
      } else if i.ready {
        rValid := false;
      }
      if ready {
        rData := i.data;
      }
    }
  }

  class RegisteredBuffer<T> {
    var rValid: bool
    var rData: T
    var oValid: bool
    var oData: T

    ghost function State(): Registered<T>
      reads this
    {
      Registered(rValid, rData, oValid, oData)
    }

    constructor (idle: T)
      ensures State() == Registered(false, idle, false, idle)
    {
      rValid, rData, oValid, oData := false, idle, false, idle;
    }

    method Tick(i: Input<T>) returns (ready: bool, valid: bool, data: T)
      modifies this
      ensures State() == old(State()).Clock(i)
      ensures ready == old(State()).Ready() && valid == old(State()).valid && data == old(State()).data
    {
      ready, valid, data := !rValid, oValid, oData;
      if !valid || i.ready {
        oData := if rValid then rData else i.data;
      }
      if i.reset {
        oValid := false;
      } else if !valid || i.ready {
        oValid := i.valid || rValid;
      }
      if i.reset {
        rValid := false;
      } else if (i.valid && ready) && (valid && !i.ready) {
        rValid := true;
      } else if i.ready {
        rValid := false;
      }
      if ready {
        rData := i.data;
      }
    }
  }
}
