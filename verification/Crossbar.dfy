/**
 * The Wishbone crossbar, one clock at a time: pipelined Wishbone (section 3.1.3 of the Wishbone B4
 * specification) with registered slave grants, double-buffered returns and no timeout.
 */
module Crossbar {
  import opened Words

  datatype Request = Request(we: bool, addr: nat, data: nat, sel: nat)

  /** The registers belonging to a master. */
  datatype Master = Master(
    grant: set<nat>,   // bit m of the grant vector; bit |slaves| is the pseudo-slave for bad addresses
    granted: bool,     // mgrant
    index: nat,        // mindex
    pending: nat, empty: bool, nearFull: bool, full: bool,
    ack: bool, err: bool, data: nat)

  /** The registers belonging to a slave. */
  datatype Slave = Slave(granted: bool, index: nat, cyc: bool, stb: bool, req: Request)

  datatype State = State(ms: seq<Master>, ss: seq<Slave>, lg: nat) {
    /** The count needs three bits for its upper ones to be told apart. */
    predicate WellFormed() {
      |ms| > 0 && |ss| > 0 && lg >= 3
    }
  }

  /** What a master's port and its address decoder present: the decode is one-hot, hence an index. */
  datatype MasterIn = MasterIn(cyc: bool, stb: bool, target: nat, req: Request)

  datatype SlaveIn = SlaveIn(stall: bool, ack: bool, err: bool, data: nat)

  datatype Input = Input(reset: bool, ms: seq<MasterIn>, ss: seq<SlaveIn>)

  predicate Fits(s: State, i: Input) {
    && s.WellFormed() && |i.ms| == |s.ms| && |i.ss| == |s.ss|
    && (forall n | 0 <= n < |s.ms| :: i.ms[n].target <= |s.ss|)
    && (forall m | 0 <= m < |s.ss| :: s.ss[m].index < |s.ms|)
    && (forall n | 0 <= n < |s.ms| :: s.ms[n].index <= |s.ss|)
  }

  // ----- combinational signals

  /** `request[n] != 0` */
  predicate Requests(i: Input, n: nat)
    requires n < |i.ms|
  {
    i.ms[n].cyc && i.ms[n].stb
  }

  /** `request[n][m]` */
  predicate Wants(i: Input, n: nat, m: nat)
    requires n < |i.ms|
  {
    Requests(i, n) && i.ms[n].target == m
  }

  /** `m_stb[n]` */
  predicate Strobe(s: State, i: Input, n: nat)
    requires Fits(s, i) && n < |s.ms|
  {
    !s.ms[n].full && Requests(i, n)
  }

  /** Whether a master could act on a new channel. */
  predicate Able(s: State, n: nat)
    requires n < |s.ms|
  {
    !s.ms[n].granted || s.ms[n].empty
  }

  /** `requested[n][m]`: some master before `n` claims slave `m`. */
  predicate Requested(s: State, i: Input, n: nat, m: nat)
    requires Fits(s, i) && n <= |s.ms|
  {
    n > 0 && (Requested(s, i, n - 1, m) || (Wants(i, n - 1, m) && (m in s.ms[n - 1].grant || Able(s, n - 1))))
  }

  /** `stay_on_channel` */
  predicate Stays(s: State, i: Input, n: nat)
    requires Fits(s, i) && n < |s.ms|
  {
    (Requests(i, n) && i.ms[n].target in s.ms[n].grant) || (s.ms[n].granted && !s.ms[n].empty)
  }

  /** `requested_channel_is_available` */
  predicate Available(s: State, i: Input, n: nat)
    requires Fits(s, i) && n < |s.ms|
  {
    if |s.ms| < 2 then Strobe(s, i, n)
    else
      var m := i.ms[n].target;
      Requests(i, n) && (m == |s.ss| || (!s.ss[m].granted && !Requested(s, i, n, m)))
  }

  /** Whether master `n` asks for slave `m` and has, or is next in line for, it. */
  predicate Claims(s: State, i: Input, n: nat, m: nat)
    requires Fits(s, i) && n < |s.ms| && m <= |s.ss|
  {
    && Wants(i, n, m) && !(s.ms[n].granted && !s.ms[n].empty)
    && (m in s.ms[n].grant || (m < |s.ss| && !s.ss[m].granted && !Requested(s, i, n, m)))
  }

  /** The OR of the numbers below `n` in a set. */
  function OrOf(x: set<nat>, n: nat): nat {
    if n == 0 then 0 else Or(OrOf(x, n - 1), if n - 1 in x then n - 1 else 0)
  }

  predicate SlaveStalls(s: State, i: Input, m: nat)
    requires Fits(s, i) && m <= |s.ss|
  {
    m == |s.ss| || (s.ss[m].stb && i.ss[m].stall)
  }

  predicate SlaveAcks(s: State, i: Input, m: nat)
    requires Fits(s, i) && m <= |s.ss|
  {
    m < |s.ss| && s.ss[m].cyc && i.ss[m].ack
  }

  predicate SlaveErrs(s: State, i: Input, m: nat)
    requires Fits(s, i) && m <= |s.ss|
  {
    m == |s.ss| || (s.ss[m].cyc && i.ss[m].err)
  }

  /** `m_stall[n]` */
  predicate Stalls(s: State, i: Input, n: nat)
    requires Fits(s, i) && n < |s.ms|
  {
    var r := s.ms[n];
    if r.err then false
    else if |s.ss| in r.grant then true
    else if r.granted && Wants(i, n, r.index) then r.full || SlaveStalls(s, i, r.index)
    else Strobe(s, i, n)
  }

  /** A request leaves the decoder for the granted slave. */
  predicate Pushes(s: State, i: Input, n: nat)
    requires Fits(s, i) && n < |s.ms|
  {
    Strobe(s, i, n) && !Stalls(s, i, n)
  }

  /** `drop_sgrant` */
  predicate Drops(s: State, i: Input, m: nat)
    requires Fits(s, i) && m < |s.ss|
  {
    var o := s.ss[m].index;
    i.reset || (s.ss[m].granted && (!i.ms[o].cyc || (!Wants(i, o, m) && Strobe(s, i, o) && s.ms[o].empty)))
  }

  // ----- the next values of the registers

  function NextGrant(s: State, i: Input, n: nat): (set<nat>, bool)
    requires Fits(s, i) && n < |s.ms|
  {
    if i.reset || !i.ms[n].cyc then ({}, false)
    else if !Stays(s, i, n) && Available(s, i, n) then ({i.ms[n].target}, true)
    else if !Stays(s, i, n) && Strobe(s, i, n) then ({}, false)
    else (s.ms[n].grant, s.ms[n].granted)
  }

  function NextIndex(s: State, i: Input, n: nat): nat
    requires Fits(s, i) && n < |s.ms|
  {
    var claimed := set m | 0 <= m <= |s.ss| && Claims(s, i, n, m);
    if |s.ss| == 1 then 0
    else if claimed == {} then s.ms[n].index else OrOf(claimed, |s.ss| + 1)
  }

  function NextSlaveIndex(s: State, i: Input, m: nat): nat
    requires Fits(s, i) && m < |s.ss|
  {
    var claimants := set n | 0 <= n < |s.ms| && Claims(s, i, n, m);
    if |s.ms| == 1 then 0
    else if claimants == {} then s.ss[m].index else OrOf(claimants, |s.ms|)
  }

  predicate NextSlaveGranted(s: State, i: Input, m: nat)
    requires Fits(s, i) && m < |s.ss|
  {
    !Drops(s, i, m) && (s.ss[m].granted || exists n :: 0 <= n < |s.ms| && Wants(i, n, m) && Able(s, n))
  }

  /** `o_scyc` and `o_sstb` */
  function NextStrobe(s: State, i: Input, m: nat): (bool, bool)
    requires Fits(s, i) && m < |s.ss|
  {
    var r, o := s.ss[m], s.ss[m].index;
    if i.reset || SlaveErrs(s, i, m) || !r.granted || !i.ms[o].cyc then (false, false)
    else (true, if SlaveStalls(s, i, m) then r.stb else Wants(i, o, m) && !s.ms[o].full)
  }

  const NO_REQUEST := Request(false, 0, 0, 0)

  /** The low-power form of a request: a read carries no data. */
  function Forwarded(r: Request): (q: Request)
    ensures q.we == r.we && q.addr == r.addr && q.sel == r.sel && q.data == if r.we then r.data else 0
  {
    if r.we then r else r.(data := 0)
  }

  function NextRequest(s: State, i: Input, m: nat): Request
    requires Fits(s, i) && m < |s.ss|
  {
    if !s.ss[m].granted then NO_REQUEST
    else if SlaveStalls(s, i, m) then s.ss[m].req
    else Forwarded(i.ms[s.ss[m].index].req)
  }

  /** `r_mack`, `r_merr` and `o_mdata` */
  function NextReturn(s: State, i: Input, n: nat): (bool, bool, nat)
    requires Fits(s, i) && n < |s.ms|
  {
    var r := s.ms[n];
    var data := if !r.granted || r.index == |s.ss| then 0 else i.ss[r.index].data;
    if i.reset || !i.ms[n].cyc || r.err then (false, false, data)
    else if |s.ss| in r.grant then (false, !r.err, data)
    else (r.granted && SlaveAcks(s, i, r.index), r.granted && SlaveErrs(s, i, r.index), data)
  }

  datatype Count = Count(pending: nat, empty: bool, nearFull: bool, full: bool)

  /** The counter after a clock on an open cycle. */
  function CountAfter(c: Count, top: nat, push: bool, ack: bool): Count
    requires top > 0
  {
    if !push && ack then
      Count((c.pending - 1) % top, c.pending == 1, c.full, false)
    else if push && !ack then
      Count((c.pending + 1) % top, false, c.pending / 4 == top / 4 - 1 && c.pending % 4 != 0, c.nearFull)
    else c
  }

  function NextCount(s: State, i: Input, n: nat): Count
    requires Fits(s, i) && n < |s.ms|
  {
    var r := s.ms[n];
    if i.reset || !i.ms[n].cyc || r.err then Count(0, true, false, false)
    else CountAfter(Count(r.pending, r.empty, r.nearFull, r.full), Pow2(s.lg), Pushes(s, i, n), r.ack)
  }

  function NextMaster(s: State, i: Input, n: nat): Master
    requires Fits(s, i) && n < |s.ms|
  {
    var (grant, granted) := NextGrant(s, i, n);
    var c := NextCount(s, i, n);
    var (ack, err, data) := NextReturn(s, i, n);
    Master(grant, granted, NextIndex(s, i, n), c.pending, c.empty, c.nearFull, c.full, ack, err, data)
  }

  function NextSlave(s: State, i: Input, m: nat): Slave
    requires Fits(s, i) && m < |s.ss|
  {
    var (cyc, stb) := NextStrobe(s, i, m);
    Slave(NextSlaveGranted(s, i, m), NextSlaveIndex(s, i, m), cyc, stb, NextRequest(s, i, m))
  }

  /** One clock. */
  function Clock(s: State, i: Input): (t: State)
    requires Fits(s, i)
    ensures |t.ms| == |s.ms| && |t.ss| == |s.ss| && t.lg == s.lg
  {
    State(seq(|s.ms|, n requires 0 <= n < |s.ms| => NextMaster(s, i, n)),
          seq(|s.ss|, m requires 0 <= m < |s.ss| => NextSlave(s, i, m)), s.lg)
  }

  // ----- arbitration

  /** The redundant copies of a grant agree. */
  ghost predicate Routed(s: State) {
    && s.WellFormed()
    && (forall n | 0 <= n < |s.ms| :: OneGrant(s, n))
    && (forall n, m | 0 <= n < |s.ms| && 0 <= m < |s.ss| && m in s.ms[n].grant :: Owns(s, n, m))
    && (forall m | 0 <= m < |s.ss| :: s.ss[m].index < |s.ms|)
    && (forall m | 0 <= m < |s.ss| && s.ss[m].granted :: m in s.ms[s.ss[m].index].grant)
  }

  /** A master has one bit of its grant vector set, or none, as `mgrant` says. */
  ghost predicate OneGrant(s: State, n: nat)
    requires n < |s.ms|
  {
    var r := s.ms[n];
    && r.index <= |s.ss|
    && (forall a | a in r.grant :: a <= |s.ss| && r.grant == {a})
    && r.granted == (r.grant != {})
    && (r.full ==> r.granted && !r.empty)
  }

  ghost predicate Owns(s: State, n: nat, m: nat)
    requires n < |s.ms| && m < |s.ss|
  {
    s.ms[n].index == m && s.ss[m].granted && s.ss[m].index == n
  }

  lemma {:induction false} RequestedBy(s: State, i: Input, n: nat, m: nat)
    requires Fits(s, i) && n <= |s.ms|
    ensures Requested(s, i, n, m) <==> exists k: nat :: k < n && Wants(i, k, m) && (m in s.ms[k].grant || Able(s, k))
  {
    if n > 0 {
      RequestedBy(s, i, n - 1, m);
    }
  }

  lemma {:induction false} OrOfSingleton(x: nat, n: nat)
    ensures OrOf({x}, n) == if x < n then x else 0
  {
    if n > 0 {
      OrOfSingleton(x, n - 1);
      ZeroOr(n - 1);
      OrZero(x);
    }
  }

  /** A clock keeps a grant exactly when the master is not free to leave it. */
  ghost predicate Keeps(s: State, i: Input, n: nat)
    requires Fits(s, i) && n < |s.ms|
  {
    !i.reset && i.ms[n].cyc && (Stays(s, i, n) || (!Available(s, i, n) && !Strobe(s, i, n)))
  }

  /** A clock that gives master `n` slave `m`. */
  ghost predicate Gains(s: State, i: Input, n: nat, m: nat)
    requires Fits(s, i) && n < |s.ms|
  {
    !i.reset && i.ms[n].cyc && !Stays(s, i, n) && Available(s, i, n) && Wants(i, n, m)
  }

  lemma GrantCases(s: State, i: Input, n: nat, m: nat)
    requires Fits(s, i) && n < |s.ms| && OneGrant(s, n)
    ensures m in NextGrant(s, i, n).0 <==> Gains(s, i, n, m) || (Keeps(s, i, n) && m in s.ms[n].grant)
  {
  }

  lemma KeepsWhenWanted(s: State, i: Input, n: nat, m: nat)
    requires Fits(s, i) && Routed(s) && n < |s.ms| && m < |s.ss| && m in s.ms[n].grant
    ensures Keeps(s, i, n) <==> !Drops(s, i, m)
  {
    assert OneGrant(s, n) && Owns(s, n, m);
    if Keeps(s, i, n) || !Drops(s, i, m) {
      assert s.ms[n].grant == {m};
    }
  }

  /** What a newly granted slave looks like: free, and claimed by nobody before. */
  lemma GainedIsFree(s: State, i: Input, n: nat, m: nat)
    requires Fits(s, i) && Routed(s) && n < |s.ms| && m < |s.ss| && Gains(s, i, n, m)
    ensures !s.ss[m].granted && !Requested(s, i, n, m) && Able(s, n) && Claims(s, i, n, m)
  {
    assert OneGrant(s, n);
  }

  lemma FreeIsUnheld(s: State, m: nat)
    requires Routed(s) && m < |s.ss| && !s.ss[m].granted
    ensures forall k | 0 <= k < |s.ms| :: m !in s.ms[k].grant
  {
    assert forall k | 0 <= k < |s.ms| && m in s.ms[k].grant :: Owns(s, k, m);
  }

  /** Only one master claims a free slave that is gained; only the owner claims one that is not free. */
  lemma OneClaimant(s: State, i: Input, n: nat, m: nat, k: nat)
    requires Fits(s, i) && Routed(s) && n < |s.ms| && m < |s.ss| && k < |s.ms|
    requires Gains(s, i, n, m) || m in s.ms[n].grant
    requires Claims(s, i, k, m)
    ensures k == n
  {
    if m in s.ms[n].grant {
      assert Owns(s, n, m);
      if m in s.ms[k].grant {
        assert Owns(s, k, m);
      }
    } else {
      GainedIsFree(s, i, n, m);
      FreeIsUnheld(s, m);
      RequestedBy(s, i, n, m);
      RequestedBy(s, i, k, m);
    }
  }

  /** The slave's index is right for whoever has it after the clock. */
  lemma SlaveIndexFollows(s: State, i: Input, n: nat, m: nat)
    requires Fits(s, i) && Routed(s) && n < |s.ms| && m < |s.ss| && m in NextGrant(s, i, n).0
    ensures NextSlaveIndex(s, i, m) == n
  {
    assert OneGrant(s, n);
    GrantCases(s, i, n, m);
    var claimants := set k | 0 <= k < |s.ms| && Claims(s, i, k, m);
    forall k | k in claimants
      ensures k == n
    {
      OneClaimant(s, i, n, m, k);
    }
    if Gains(s, i, n, m) {
      GainedIsFree(s, i, n, m);
      assert n in claimants;
    } else {
      assert Owns(s, n, m);
    }
    if claimants != {} {
      assert claimants == {n};
      OrOfSingleton(n, |s.ms|);
    }
  }

  /** The master's index is right for the slave it has after the clock. */
  lemma MasterIndexFollows(s: State, i: Input, n: nat, m: nat)
    requires Fits(s, i) && Routed(s) && n < |s.ms| && m < |s.ss| && m in NextGrant(s, i, n).0
    ensures NextIndex(s, i, n) == m
  {
    assert OneGrant(s, n);
    GrantCases(s, i, n, m);
    var claimed := set k | 0 <= k <= |s.ss| && Claims(s, i, n, k);
    forall k | k in claimed
      ensures k == m
    {
    }
    if Gains(s, i, n, m) {
      GainedIsFree(s, i, n, m);
      assert m in claimed;
    } else {
      assert Owns(s, n, m);
    }
    if claimed != {} {
      assert claimed == {m};
      OrOfSingleton(m, |s.ss| + 1);
    }
  }

  lemma SlaveGrantFollows(s: State, i: Input, n: nat, m: nat)
    requires Fits(s, i) && Routed(s) && n < |s.ms| && m < |s.ss| && m in NextGrant(s, i, n).0
    ensures NextSlaveGranted(s, i, m)
  {
    assert OneGrant(s, n);
    GrantCases(s, i, n, m);
    if Gains(s, i, n, m) {
      GainedIsFree(s, i, n, m);
    } else {
      assert Owns(s, n, m);
      KeepsWhenWanted(s, i, n, m);
    }
  }

  /** The first master able to act on its request for a free slave. */
  lemma {:induction false} FirstAble(s: State, i: Input, m: nat, k: nat) returns (n: nat)
    requires Fits(s, i) && m < |s.ss| && k < |s.ms| && Wants(i, k, m) && Able(s, k)
    ensures n <= k && Wants(i, n, m) && Able(s, n)
    ensures forall j: nat | j < n :: !(Wants(i, j, m) && Able(s, j))
    decreases k
  {
    if j: nat :| j < k && Wants(i, j, m) && Able(s, j) {
      n := FirstAble(s, i, m, j);
    } else {
      n := k;
    }
  }

  /** A slave is granted after the clock only to a master that has it. */
  lemma SlaveGrantHasOwner(s: State, i: Input, m: nat) returns (n: nat)
    requires Fits(s, i) && Routed(s) && m < |s.ss| && NextSlaveGranted(s, i, m)
    ensures n < |s.ms| && m in NextGrant(s, i, n).0
  {
    if s.ss[m].granted {
      n := s.ss[m].index;
      assert OneGrant(s, n);
      KeepsWhenWanted(s, i, n, m);
      GrantCases(s, i, n, m);
    } else {
      var k: nat :| k < |s.ms| && Wants(i, k, m) && Able(s, k);
      n := FirstAble(s, i, m, k);
      assert OneGrant(s, n);
      RequestedBy(s, i, n, m);
      FreeIsUnheld(s, m);
      GrantCases(s, i, n, m);
    }
  }

  lemma OneGrantFollows(s: State, i: Input, n: nat)
    requires Fits(s, i) && Routed(s) && n < |s.ms|
    ensures OneGrant(Clock(s, i), n)
  {
    var t := Clock(s, i);
    assert OneGrant(s, n);
    IndexInRange(s, i, n);
    FullIsGranted(s, i, n);
  }

  lemma IndexInRange(s: State, i: Input, n: nat)
    requires Fits(s, i) && n < |s.ms| && OneGrant(s, n)
    ensures NextIndex(s, i, n) <= |s.ss|
  {
    var claimed := set k | 0 <= k <= |s.ss| && Claims(s, i, n, k);
    var m := i.ms[n].target;
    assert forall k | k in claimed :: k == m;
    if claimed != {} {
      assert claimed == {m};
      OrOfSingleton(m, |s.ss| + 1);
    }
  }

  /** A full counter belongs to a granted master: only a granted one pushes. */
  lemma FullIsGranted(s: State, i: Input, n: nat)
    requires Fits(s, i) && Routed(s) && n < |s.ms|
    ensures NextCount(s, i, n).full ==> NextGrant(s, i, n).1 && !NextCount(s, i, n).empty
  {
    var r, c := s.ms[n], NextCount(s, i, n);
    assert OneGrant(s, n);
    if c.full {
      if Pushes(s, i, n) {
        assert r.granted && r.index in r.grant by {
          if r.index < |s.ss| {
            assert r.index in r.grant || r.grant != {};
          }
          PushGoesToGrant(s, i, n);
        }
      }
    }
  }

  /** A master that pushes has been granted the slave it pushes to. */
  lemma PushGoesToGrant(s: State, i: Input, n: nat)
    requires Fits(s, i) && Routed(s) && n < |s.ms| && Pushes(s, i, n) && !s.ms[n].err
    ensures s.ms[n].granted && s.ms[n].grant == {i.ms[n].target} && i.ms[n].target == s.ms[n].index < |s.ss|
  {
    var r := s.ms[n];
    assert OneGrant(s, n);
    var a :| a in r.grant;
    if a < |s.ss| {
      assert Owns(s, n, a);
    }
  }

  /** Every clock keeps the copies of the grants in agreement, whatever masters and slaves do. */
  lemma ClockKeepsRouted(s: State, i: Input)
    requires Routed(s) && Fits(s, i)
    ensures Routed(Clock(s, i))
  {
    var t := Clock(s, i);
    forall n | 0 <= n < |t.ms|
      ensures OneGrant(t, n)
    {
      OneGrantFollows(s, i, n);
    }
    forall n, m | 0 <= n < |t.ms| && 0 <= m < |t.ss| && m in t.ms[n].grant
      ensures Owns(t, n, m)
    {
      SlaveIndexFollows(s, i, n, m);
      MasterIndexFollows(s, i, n, m);
      SlaveGrantFollows(s, i, n, m);
    }
    forall m | 0 <= m < |t.ss|
      ensures t.ss[m].index < |t.ms| && (t.ss[m].granted ==> m in t.ms[t.ss[m].index].grant)
    {
      SlaveIndexInRange(s, i, m);
      if t.ss[m].granted {
        var n := SlaveGrantHasOwner(s, i, m);
        SlaveIndexFollows(s, i, n, m);
      }
    }
  }

  /** The slave's index stays a master's: at most one master claims a slave. */
  lemma SlaveIndexInRange(s: State, i: Input, m: nat)
    requires Fits(s, i) && Routed(s) && m < |s.ss|
    ensures NextSlaveIndex(s, i, m) < |s.ms|
  {
    var claimants := set k | 0 <= k < |s.ms| && Claims(s, i, k, m);
    if claimants != {} {
      var n :| n in claimants;
      forall k | k in claimants
        ensures k == n
      {
        TwoClaimants(s, i, m, k, n);
      }
      assert claimants == {n};
      OrOfSingleton(n, |s.ms|);
    }
  }

  lemma TwoClaimants(s: State, i: Input, m: nat, j: nat, k: nat)
    requires Fits(s, i) && Routed(s) && m < |s.ss| && j < |s.ms| && k < |s.ms|
    requires Claims(s, i, j, m) && Claims(s, i, k, m)
    ensures j == k
  {
    if s.ss[m].granted {
      assert Owns(s, j, m) && Owns(s, k, m);
    } else {
      FreeIsUnheld(s, m);
      RequestedBy(s, i, j, m);
      RequestedBy(s, i, k, m);
    }
  }

  // ----- what asking gets

  /** A free slave goes to the first master that asks for it and could act on a new channel, and to no other. */
  lemma FirstGetsFreeSlave(s: State, i: Input, n: nat, m: nat)
    requires Fits(s, i) && Routed(s) && !i.reset && n < |s.ms| && m < |s.ss| && !s.ss[m].granted
    requires i.ms[n].cyc && i.ms[n].stb && i.ms[n].target == m && (!s.ms[n].granted || s.ms[n].empty)
    requires forall k: nat | k < n :: !(i.ms[k].cyc && i.ms[k].stb && i.ms[k].target == m && (!s.ms[k].granted || s.ms[k].empty))
    ensures Clock(s, i).ms[n].grant == {m} && Clock(s, i).ss[m].granted
    ensures forall k | 0 <= k < |s.ms| && k != n :: m !in Clock(s, i).ms[k].grant
  {
    assert OneGrant(s, n);
    RequestedBy(s, i, n, m);
    FreeIsUnheld(s, m);
    ClockKeepsRouted(s, i);
    GrantCases(s, i, n, m);
    SlaveIndexFollows(s, i, n, m);
    forall k | 0 <= k < |s.ms| && k != n
      ensures m !in Clock(s, i).ms[k].grant
    {
      if m in Clock(s, i).ms[k].grant {
        SlaveIndexFollows(s, i, k, m);
      }
    }
    SlaveGrantFollows(s, i, n, m);
  }

  /**
   * A request for no slave's address, from a master with nothing under way, gets an error: in one of
   * the next two clocks, if the master holds its cycle so long.
   */
  lemma NowhereGetsError(s: State, i: Input, j: Input, n: nat)
    requires Fits(s, i) && Routed(s) && n < |s.ms| && !s.ms[n].err && (!s.ms[n].granted || s.ms[n].empty)
    requires !i.reset && i.ms[n].cyc && i.ms[n].stb && i.ms[n].target == |s.ss|
    requires Fits(Clock(s, i), j) && !j.reset && j.ms[n].cyc
    ensures Clock(s, i).ms[n].err || Clock(Clock(s, i), j).ms[n].err
  {
    assert OneGrant(s, n);
    GrantCases(s, i, n, |s.ss|);
    assert |s.ss| in Clock(s, i).ms[n].grant;
    ErrorWhenNowhere(Clock(s, i), j, n);
  }

  /** A master that holds the pseudo-slave is shown an error on every other clock of its cycle. */
  lemma ErrorWhenNowhere(s: State, i: Input, n: nat)
    requires Fits(s, i) && n < |s.ms| && |s.ss| in s.ms[n].grant && !i.reset && i.ms[n].cyc
    ensures Clock(s, i).ms[n].err == !s.ms[n].err && !Clock(s, i).ms[n].ack
  {
  }

  /** What a master is shown is what its slave answered in the clock before, and nothing of what came after an error. */
  lemma AnswerIsShown(s: State, i: Input, n: nat, m: nat)
    requires Fits(s, i) && Routed(s) && n < |s.ms| && m < |s.ss| && m in s.ms[n].grant && !i.reset && i.ms[n].cyc
    ensures Clock(s, i).ms[n].ack == (s.ss[m].cyc && i.ss[m].ack && !s.ms[n].err)
    ensures Clock(s, i).ms[n].err == (s.ss[m].cyc && i.ss[m].err && !s.ms[n].err)
  {
    assert OneGrant(s, n);
  }

  /** A master that ends its cycle gives up its slave at once, and the slave is free in the next clock. */
  lemma EndFreesSlave(s: State, i: Input, n: nat, m: nat)
    requires Fits(s, i) && Routed(s) && n < |s.ms| && m < |s.ss| && m in s.ms[n].grant && !i.ms[n].cyc
    ensures Clock(s, i).ms[n].grant == {} && !Clock(s, i).ms[n].granted
    ensures !Clock(s, i).ss[m].granted && !Clock(s, i).ss[m].cyc && !Clock(s, i).ss[m].stb
  {
    assert OneGrant(s, n) && Owns(s, n, m);
  }

  // ----- requests in flight

  datatype Answer = Answer(req: Request, data: nat)

  /** What has happened on the buses, as far as it is not settled. */
  datatype History = History(
    sent: seq<seq<Request>>,     // by each master: taken from its decoder, and not yet acknowledged to it
    answer: seq<Answer>,         // to each master: the last request a slave acknowledged, and its data
    atSlave: seq<seq<Request>>,  // by each slave: accepted, and not yet acknowledged by it
    aborting: seq<bool>)         // each master: it has been shown an error and still holds its cycle

  predicate Sized(s: State, h: History) {
    |h.sent| == |h.answer| == |h.aborting| == |s.ms| && |h.atSlave| == |s.ss|
  }

  /** A slave's outstanding requests, with the one it accepts this clock. */
  function Outstanding(s: State, i: Input, h: History, m: nat): seq<Request>
    requires Fits(s, i) && Sized(s, h) && m < |s.ss|
  {
    h.atSlave[m] + if s.ss[m].cyc && s.ss[m].stb && !i.ss[m].stall then [s.ss[m].req] else []
  }

  /**
   * Slaves acknowledge or fail only what is outstanding, one way at a time; masters drop their
   * cycle on the clock after they are shown an error.
   */
  predicate WellBehaved(s: State, i: Input, h: History)
    requires Fits(s, i) && Sized(s, h)
  {
    && (forall m | 0 <= m < |s.ss| && s.ss[m].cyc && (i.ss[m].ack || i.ss[m].err) ::
          Outstanding(s, i, h, m) != [] && !(i.ss[m].ack && i.ss[m].err))
    && (forall n | 0 <= n < |s.ms| && h.aborting[n] :: !i.ms[n].cyc)
  }

  function NextSent(s: State, i: Input, h: History, n: nat): seq<Request>
    requires Fits(s, i) && Sized(s, h) && n < |s.ms|
  {
    if i.reset || !i.ms[n].cyc || s.ms[n].err then []
    else
      (if s.ms[n].ack && h.sent[n] != [] then h.sent[n][1..] else h.sent[n])
        + if Pushes(s, i, n) then [Forwarded(i.ms[n].req)] else []
  }

  function NextAnswer(s: State, i: Input, h: History, n: nat): Answer
    requires Fits(s, i) && Sized(s, h) && n < |s.ms|
  {
    var m := s.ms[n].index;
    if SlaveAcks(s, i, m) && Outstanding(s, i, h, m) != [] then
      Answer(Outstanding(s, i, h, m)[0], i.ss[m].data)
    else h.answer[n]
  }

  function NextAtSlave(s: State, i: Input, h: History, m: nat): seq<Request>
    requires Fits(s, i) && Sized(s, h) && m < |s.ss|
  {
    var q := Outstanding(s, i, h, m);
    if !NextStrobe(s, i, m).0 then []
    else if SlaveAcks(s, i, m) && q != [] then q[1..]
    else q
  }

  function Record(s: State, i: Input, h: History): (g: History)
    requires Fits(s, i) && Sized(s, h)
    ensures Sized(s, g)
  {
    History(
      seq(|s.ms|, n requires 0 <= n < |s.ms| => NextSent(s, i, h, n)),
      seq(|s.ms|, n requires 0 <= n < |s.ms| => NextAnswer(s, i, h, n)),
      seq(|s.ss|, m requires 0 <= m < |s.ss| => NextAtSlave(s, i, h, m)),
      seq(|s.ms|, n requires 0 <= n < |s.ms| =>
        !i.reset && i.ms[n].cyc && (h.aborting[n] || s.ms[n].err)))
  }

  // ----- conservation

  /** The counter and its three flags. */
  ghost predicate Counted(s: State, h: History, n: nat)
    requires Sized(s, h) && n < |s.ms|
  {
    var r := s.ms[n];
    Describes(Count(r.pending, r.empty, r.nearFull, r.full), |h.sent[n]|, Pow2(s.lg))
  }

  /** The flags say of the count what they are named for, and the count has not wrapped. */
  ghost predicate Describes(c: Count, n: nat, top: nat) {
    && c.pending == n < top
    && c.empty == (n == 0)
    && c.nearFull == (n >= top - 2)
    && c.full == (n == top - 1)
  }

  /** A master without a slave has nothing in flight. */
  ghost predicate Settled(s: State, h: History, n: nat)
    requires Sized(s, h) && n < |s.ms|
  {
    h.sent[n] == [] && !s.ms[n].ack
  }

  /** The requests of a master, oldest first, are the one being acknowledged, those at its slave, and the one on its way. */
  ghost predicate InFlight(s: State, h: History, n: nat, m: nat)
    requires Sized(s, h) && n < |s.ms| && m < |s.ss|
  {
    var r, u := s.ms[n], s.ss[m];
    if h.aborting[n] then Settled(s, h, n)
    else if r.err then !r.ack && !u.stb && h.atSlave[m] == []
    else
      h.sent[n] == (if r.ack then [h.answer[n].req] else []) + h.atSlave[m] + (if u.stb then [u.req] else [])
  }

  ghost predicate Conserved(s: State, h: History) {
    && Routed(s) && Sized(s, h)
    && (forall n | 0 <= n < |s.ms| :: Counted(s, h, n) && (s.ms[n].ack ==> s.ms[n].data == h.answer[n].data))
    && (forall n | 0 <= n < |s.ms| && (s.ms[n].grant == {} || |s.ss| in s.ms[n].grant) :: Settled(s, h, n))
    && (forall n, m | 0 <= n < |s.ms| && 0 <= m < |s.ss| && m in s.ms[n].grant :: InFlight(s, h, n, m))
    && (forall m | 0 <= m < |s.ss| :: SlaveAtRest(s, h, m))
  }

  /** A slave that is not granted, or whose cycle is closed, has nothing in flight. */
  ghost predicate SlaveAtRest(s: State, h: History, m: nat)
    requires Sized(s, h) && m < |s.ss|
  {
    var u := s.ss[m];
    && (!u.granted ==> !u.stb && h.atSlave[m] == [])
    && (!u.cyc ==> !u.stb && h.atSlave[m] == [])
  }

  /** A master with nothing pending, or shown an error, has nothing at its slave either. */
  lemma NothingInFlight(s: State, h: History, n: nat)
    requires Conserved(s, h) && n < |s.ms| && !h.aborting[n]
    requires s.ms[n].empty || !s.ms[n].granted || s.ms[n].err
    ensures !s.ms[n].ack
    ensures forall m | 0 <= m < |s.ss| && m in s.ms[n].grant :: !s.ss[m].stb && h.atSlave[m] == []
  {
    assert OneGrant(s, n) && Counted(s, h, n);
    if s.ms[n].grant == {} || |s.ss| in s.ms[n].grant {
      assert Settled(s, h, n);
    } else {
      var a :| a in s.ms[n].grant;
      assert InFlight(s, h, n, a);
    }
  }

  lemma AckMeansSent(s: State, h: History, n: nat)
    requires Conserved(s, h) && n < |s.ms| && s.ms[n].ack
    ensures !s.ms[n].err && !h.aborting[n] && h.sent[n] != [] && h.sent[n][0] == h.answer[n].req
    ensures exists m :: 0 <= m < |s.ss| && s.ms[n].grant == {m}
  {
    assert OneGrant(s, n);
    assert !(s.ms[n].grant == {} || |s.ss| in s.ms[n].grant) by {
      assert s.ms[n].grant == {} || |s.ss| in s.ms[n].grant ==> Settled(s, h, n);
    }
    var a :| a in s.ms[n].grant;
    assert InFlight(s, h, n, a);
  }

  lemma CountAfterDescribes(c: Count, n: nat, top: nat, e: nat, push: bool, ack: bool)
    requires top == 8 * e && e > 0 && Describes(c, n, top)
    requires (ack ==> n > 0) && (push ==> !c.full)
    ensures Describes(CountAfter(c, top, push, ack), n + (if push then 1 else 0) - (if ack then 1 else 0), top)
  {
    CountArithmetic(n, top, e);
  }

  lemma CountedFollows(s: State, i: Input, h: History, n: nat)
    requires Fits(s, i) && Conserved(s, h) && WellBehaved(s, i, h) && n < |s.ms|
    ensures Counted(Clock(s, i), Record(s, i, h), n)
  {
    var r := s.ms[n];
    assert OneGrant(s, n) && Counted(s, h, n);
    TopIsLarge(s.lg);
    if !i.reset && i.ms[n].cyc && !r.err {
      if r.ack {
        AckMeansSent(s, h, n);
      }
      CountAfterDescribes(Count(r.pending, r.empty, r.nearFull, r.full), |h.sent[n]|, Pow2(s.lg), Pow2(s.lg - 3),
                          Pushes(s, i, n), r.ack);
    }
  }

  lemma TopIsLarge(lg: nat)
    requires lg >= 3
    ensures Pow2(lg) == 8 * Pow2(lg - 3)
  {
    Pow2Add(3, lg - 3);
    assert Pow2(3) == 8;
  }

  lemma CountArithmetic(p: nat, top: nat, e: nat)
    requires p < top && top == 8 * e
    ensures p > 0 ==> (p - 1) % top == p - 1
    ensures p + 1 < top ==> (p + 1) % top == p + 1
    ensures p + 1 < top ==> ((p / 4 == top / 4 - 1 && p % 4 != 0) <==> p + 1 >= top - 2)
  {
    if p > 0 {
      DivModUnique(p - 1, top, 0, p - 1);
    }
    if p + 1 < top {
      DivModUnique(p + 1, top, 0, p + 1);
      NearTop(p, e);
    }
  }

  lemma NearTop(p: nat, e: nat)
    requires p + 1 < 8 * e
    ensures (p / 4 == 8 * e / 4 - 1 && p % 4 != 0) <==> p + 1 >= 8 * e - 2
  {
    var q, r := p / 4, p % 4;
    assert p == 4 * q + r && 8 * e / 4 == 2 * e;
  }

  lemma SettledFollows(s: State, i: Input, h: History, n: nat)
    requires Fits(s, i) && Conserved(s, h) && WellBehaved(s, i, h) && n < |s.ms|
    requires var g := NextGrant(s, i, n).0; g == {} || |s.ss| in g || g != s.ms[n].grant
    ensures Settled(Clock(s, i), Record(s, i, h), n)
  {
    var r := s.ms[n];
    assert OneGrant(s, n) && Counted(s, h, n);
    if !i.reset && i.ms[n].cyc && !r.err {
      if NextGrant(s, i, n).0 == r.grant {
        assert Settled(s, h, n);
        if Pushes(s, i, n) {
          PushGoesToGrant(s, i, n);
        }
      } else {
        NothingInFlight(s, h, n);
        if Pushes(s, i, n) {
          PushGoesToGrant(s, i, n);
        }
        AckNeedsOutstanding(s, i, h, n);
      }
    }
  }

  /** A master with nothing in flight gets no acknowledgment. */
  lemma AckNeedsOutstanding(s: State, i: Input, h: History, n: nat)
    requires Fits(s, i) && Conserved(s, h) && WellBehaved(s, i, h) && n < |s.ms|
    requires forall m | 0 <= m < |s.ss| && m in s.ms[n].grant :: !s.ss[m].stb && h.atSlave[m] == []
    ensures !NextReturn(s, i, n).0
    ensures NextReturn(s, i, n).1 ==> |s.ss| in s.ms[n].grant
  {
    var r := s.ms[n];
    assert OneGrant(s, n);
    if r.granted {
      var a :| a in r.grant;
      if a < |s.ss| {
        assert Owns(s, n, a);
        assert Outstanding(s, i, h, a) == [];
      }
    }
  }

  lemma SlaveAtRestFollows(s: State, i: Input, h: History, m: nat)
    requires Fits(s, i) && Conserved(s, h) && WellBehaved(s, i, h) && m < |s.ss|
    ensures SlaveAtRest(Clock(s, i), Record(s, i, h), m)
  {
    assert SlaveAtRest(s, h, m);
    var o := s.ss[m].index;
    if s.ss[m].granted && !NextSlaveGranted(s, i, m) && !i.reset && i.ms[o].cyc {
      NothingInFlight(s, h, o);
      assert Outstanding(s, i, h, m) == [];
    }
  }

  lemma InFlightGained(s: State, i: Input, h: History, n: nat, m: nat)
    requires Fits(s, i) && Conserved(s, h) && WellBehaved(s, i, h) && n < |s.ms| && m < |s.ss|
    requires Gains(s, i, n, m)
    ensures InFlight(Clock(s, i), Record(s, i, h), n, m)
  {
    assert OneGrant(s, n);
    GainedIsFree(s, i, n, m);
    assert m !in s.ms[n].grant;
    assert NextGrant(s, i, n).0 != s.ms[n].grant;
    SettledFollows(s, i, h, n);
  }

  /** A push is a request from the decoder that the slave's register is free to take. */
  lemma PushMeansLoad(s: State, i: Input, n: nat, m: nat)
    requires Fits(s, i) && Routed(s) && n < |s.ms| && m < |s.ss| && m in s.ms[n].grant && !s.ms[n].err
    ensures Pushes(s, i, n) <==>
              i.ms[n].cyc && i.ms[n].stb && i.ms[n].target == m && !s.ms[n].full && !(s.ss[m].stb && i.ss[m].stall)
  {
    assert OneGrant(s, n) && Owns(s, n, m);
  }

  /** Taking the front off a request list that an acknowledgment, a slave and its register make up. */
  lemma ShiftInFlight(sent: seq<Request>, acked: seq<Request>, q: seq<Request>, up: seq<Request>, push: seq<Request>)
    requires sent == acked + q + up && |acked| <= 1
    ensures (if acked != [] then sent[1..] else sent) + push == q + up + push
  {
    assert acked != [] ==> sent[1..] == q + up;
    assert acked == [] ==> sent == q + up;
  }

  lemma StrobeAccounted(s: State, i: Input, h: History, m: nat)
    requires Fits(s, i) && Conserved(s, h) && m < |s.ss|
    ensures Outstanding(s, i, h, m) + (if SlaveStalls(s, i, m) then [s.ss[m].req] else [])
         == h.atSlave[m] + (if s.ss[m].stb then [s.ss[m].req] else [])
  {
    assert SlaveAtRest(s, h, m);
  }

  lemma InFlightKept(s: State, i: Input, h: History, n: nat, m: nat)
    requires Fits(s, i) && Conserved(s, h) && WellBehaved(s, i, h) && n < |s.ms| && m < |s.ss|
    requires Keeps(s, i, n) && m in s.ms[n].grant
    ensures InFlight(Clock(s, i), Record(s, i, h), n, m)
  {
    assert OneGrant(s, n) && Owns(s, n, m) && InFlight(s, h, n, m);
    if !s.ms[n].err && !SlaveErrs(s, i, m) {
      KeptSent(s, i, h, n, m);
      KeptSlave(s, i, h, n, m);
      StrobeAccounted(s, i, h, m);
    }
  }

  lemma KeptSent(s: State, i: Input, h: History, n: nat, m: nat)
    requires Fits(s, i) && Conserved(s, h) && n < |s.ms| && m < |s.ss|
    requires Keeps(s, i, n) && m in s.ms[n].grant && !s.ms[n].err && !h.aborting[n]
    ensures NextSent(s, i, h, n)
         == h.atSlave[m] + (if s.ss[m].stb then [s.ss[m].req] else [])
          + (if Pushes(s, i, n) then [Forwarded(i.ms[n].req)] else [])
  {
    var r, u := s.ms[n], s.ss[m];
    assert InFlight(s, h, n, m);
    ShiftInFlight(h.sent[n], if r.ack then [h.answer[n].req] else [], h.atSlave[m],
                  if u.stb then [u.req] else [], if Pushes(s, i, n) then [Forwarded(i.ms[n].req)] else []);
  }

  /** The slave's side of a clock on an open channel. */
  lemma KeptSlave(s: State, i: Input, h: History, n: nat, m: nat)
    requires Fits(s, i) && Conserved(s, h) && WellBehaved(s, i, h) && n < |s.ms| && m < |s.ss|
    requires Keeps(s, i, n) && m in s.ms[n].grant && !s.ms[n].err && !SlaveErrs(s, i, m)
    ensures var t, g := Clock(s, i), Record(s, i, h);
            && (if t.ms[n].ack then [g.answer[n].req] else []) + g.atSlave[m] == Outstanding(s, i, h, m)
            && (if t.ss[m].stb then [t.ss[m].req] else [])
                == (if SlaveStalls(s, i, m) then [s.ss[m].req] else [])
                 + (if Pushes(s, i, n) then [Forwarded(i.ms[n].req)] else [])
  {
    assert OneGrant(s, n) && Owns(s, n, m);
    PushMeansLoad(s, i, n, m);
  }

  lemma AnswerDataFollows(s: State, i: Input, h: History, n: nat)
    requires Fits(s, i) && Conserved(s, h) && WellBehaved(s, i, h) && n < |s.ms|
    ensures var t, g := Clock(s, i), Record(s, i, h); t.ms[n].ack ==> t.ms[n].data == g.answer[n].data
  {
    assert OneGrant(s, n);
  }

  /** Every clock accounts for every request, as long as the parties play by the rules. */
  lemma ClockConserves(s: State, i: Input, h: History)
    requires Fits(s, i) && Conserved(s, h) && WellBehaved(s, i, h)
    ensures Conserved(Clock(s, i), Record(s, i, h))
  {
    var t, g := Clock(s, i), Record(s, i, h);
    ClockKeepsRouted(s, i);
    forall n | 0 <= n < |t.ms|
      ensures Counted(t, g, n) && (t.ms[n].ack ==> t.ms[n].data == g.answer[n].data)
    {
      CountedFollows(s, i, h, n);
      AnswerDataFollows(s, i, h, n);
    }
    forall n | 0 <= n < |t.ms| && (t.ms[n].grant == {} || |t.ss| in t.ms[n].grant)
      ensures Settled(t, g, n)
    {
      SettledFollows(s, i, h, n);
    }
    forall n, m | 0 <= n < |t.ms| && 0 <= m < |t.ss| && m in t.ms[n].grant
      ensures InFlight(t, g, n, m)
    {
      assert OneGrant(s, n);
      GrantCases(s, i, n, m);
      if Gains(s, i, n, m) {
        InFlightGained(s, i, h, n, m);
      } else {
        InFlightKept(s, i, h, n, m);
      }
    }
    forall m | 0 <= m < |t.ss|
      ensures SlaveAtRest(t, g, m)
    {
      SlaveAtRestFollows(s, i, h, m);
    }
  }

  // ----- requests come from masters

  /** In this clock master `n` asks slave `m` for `q`; of a read, whatever data comes with it. */
  predicate Asks(i: Input, n: nat, m: nat, q: Request) {
    && n < |i.ms| && i.ms[n].cyc && i.ms[n].stb && i.ms[n].target == m
    && q.we == i.ms[n].req.we && q.addr == i.ms[n].req.addr && q.sel == i.ms[n].req.sel
    && q.data == if q.we then i.ms[n].req.data else 0
  }

  ghost predicate AskedFor(past: seq<Input>, m: nat, q: Request) {
    exists j, n :: 0 <= j < |past| && Asks(past[j], n, m, q)
  }

  ghost predicate AskedBy(past: seq<Input>, n: nat, q: Request) {
    exists j, m :: 0 <= j < |past| && Asks(past[j], n, m, q)
  }

  /** What is at the slaves was asked of them, and what the masters wait for they asked for. */
  ghost predicate Asked(past: seq<Input>, s: State, h: History)
    requires Sized(s, h)
  {
    && (forall m | 0 <= m < |s.ss| && s.ss[m].stb :: AskedFor(past, m, s.ss[m].req))
    && (forall m, k | 0 <= m < |s.ss| && 0 <= k < |h.atSlave[m]| :: AskedFor(past, m, h.atSlave[m][k]))
    && (forall n, k | 0 <= n < |s.ms| && 0 <= k < |h.sent[n]| :: AskedBy(past, n, h.sent[n][k]))
  }

  lemma StaysAskedFor(past: seq<Input>, i: Input, m: nat, q: Request)
    ensures AskedFor(past, m, q) ==> AskedFor(past + [i], m, q)
    ensures forall n | Asks(i, n, m, q) :: AskedFor(past + [i], m, q)
  {
    if AskedFor(past, m, q) {
      var j, n :| 0 <= j < |past| && Asks(past[j], n, m, q);
      assert (past + [i])[j] == past[j];
    }
    assert (past + [i])[|past|] == i;
  }

  lemma StaysAskedBy(past: seq<Input>, i: Input, n: nat, q: Request)
    ensures AskedBy(past, n, q) ==> AskedBy(past + [i], n, q)
    ensures forall m | Asks(i, n, m, q) :: AskedBy(past + [i], n, q)
  {
    if AskedBy(past, n, q) {
      var j, m :| 0 <= j < |past| && Asks(past[j], n, m, q);
      assert (past + [i])[j] == past[j];
    }
    assert (past + [i])[|past|] == i;
  }

  /** What a slave is given is asked for in the same clock, or was asked for before. */
  lemma StrobeAsked(past: seq<Input>, s: State, i: Input, h: History, m: nat)
    requires Fits(s, i) && Sized(s, h) && Asked(past, s, h) && m < |s.ss| && Clock(s, i).ss[m].stb
    ensures AskedFor(past + [i], m, Clock(s, i).ss[m].req)
  {
    StaysAskedFor(past, i, m, Clock(s, i).ss[m].req);
    if !SlaveStalls(s, i, m) {
      assert Asks(i, s.ss[m].index, m, Clock(s, i).ss[m].req);
    }
  }

  lemma OutstandingAsked(past: seq<Input>, s: State, i: Input, h: History, m: nat, k: nat)
    requires Fits(s, i) && Sized(s, h) && Asked(past, s, h) && m < |s.ss| && k < |NextAtSlave(s, i, h, m)|
    ensures AskedFor(past + [i], m, NextAtSlave(s, i, h, m)[k])
  {
    var q := Outstanding(s, i, h, m);
    StaysAskedFor(past, i, m, NextAtSlave(s, i, h, m)[k]);
    assert NextAtSlave(s, i, h, m)[k] == q[k] || (k + 1 < |q| && NextAtSlave(s, i, h, m)[k] == q[k + 1]);
  }

  lemma SentAsked(past: seq<Input>, s: State, i: Input, h: History, n: nat, k: nat)
    requires Fits(s, i) && Sized(s, h) && Asked(past, s, h) && n < |s.ms| && k < |NextSent(s, i, h, n)|
    ensures AskedBy(past + [i], n, NextSent(s, i, h, n)[k])
  {
    var q, next := h.sent[n], NextSent(s, i, h, n);
    StaysAskedBy(past, i, n, next[k]);
    if k == |next| - 1 && Pushes(s, i, n) {
      assert Asks(i, n, i.ms[n].target, next[k]);
    } else {
      assert (k < |q| && next[k] == q[k]) || (k + 1 < |q| && next[k] == q[k + 1]);
    }
  }

  lemma ClockKeepsAsked(past: seq<Input>, s: State, i: Input, h: History)
    requires Fits(s, i) && Sized(s, h) && Asked(past, s, h)
    ensures Asked(past + [i], Clock(s, i), Record(s, i, h))
  {
    var t, g := Clock(s, i), Record(s, i, h);
    forall m | 0 <= m < |t.ss| && t.ss[m].stb
      ensures AskedFor(past + [i], m, t.ss[m].req)
    {
      StrobeAsked(past, s, i, h, m);
    }
    forall m, k | 0 <= m < |t.ss| && 0 <= k < |g.atSlave[m]|
      ensures AskedFor(past + [i], m, g.atSlave[m][k])
    {
      OutstandingAsked(past, s, i, h, m, k);
    }
    forall n, k | 0 <= n < |t.ms| && 0 <= k < |g.sent[n]|
      ensures AskedBy(past + [i], n, g.sent[n][k])
    {
      SentAsked(past, s, i, h, n, k);
    }
  }

  lemma {:induction false} AlwaysAsked(past: seq<Input>, s: State, h: History, ins: seq<Input>, t: State, g: History)
    requires Sized(s, h) && Asked(past, s, h) && ReachesWell(s, h, ins, t, g)
    ensures Sized(t, g) && Asked(past + ins, t, g)
    decreases |ins|
  {
    if ins == [] {
      assert past + ins == past;
    } else {
      ClockKeepsAsked(past, s, ins[0], h);
      AlwaysAsked(past + [ins[0]], Clock(s, ins[0]), Record(s, ins[0], h), ins[1..], t, g);
      assert past + [ins[0]] + ins[1..] == past + ins;
    }
  }

  // ----- every run

  /** The state after reset. The index registers have no reset value: they may hold any master and slave. */
  function Initial(indices: seq<nat>, slaveIndices: seq<nat>, lg: nat): State {
    State(seq(|indices|, n requires 0 <= n < |indices| => Master({}, false, indices[n], 0, true, false, false, false, false, 0)),
          seq(|slaveIndices|, m requires 0 <= m < |slaveIndices| => Slave(false, slaveIndices[m], false, false, NO_REQUEST)), lg)
  }

  predicate InRange(indices: seq<nat>, slaveIndices: seq<nat>) {
    && indices != [] && slaveIndices != []
    && (forall n | 0 <= n < |indices| :: indices[n] <= |slaveIndices|)
    && (forall m | 0 <= m < |slaveIndices| :: slaveIndices[m] < |indices|)
  }

  function NoHistory(masters: nat, slaves: nat): History {
    History(seq(masters, n => []), seq(masters, n => Answer(NO_REQUEST, 0)), seq(slaves, m => []),
            seq(masters, n => false))
  }

  /** The state a sequence of inputs of the right shape leads to. */
  ghost predicate Reaches(s: State, ins: seq<Input>, t: State)
    decreases |ins|
  {
    if ins == [] then s == t
    else Fits(s, ins[0]) && Reaches(Clock(s, ins[0]), ins[1..], t)
  }

  /** As above, when everybody plays by the rules. */
  ghost predicate ReachesWell(s: State, h: History, ins: seq<Input>, t: State, g: History)
    decreases |ins|
  {
    if ins == [] then s == t && h == g
    else
      && Fits(s, ins[0]) && Sized(s, h) && WellBehaved(s, ins[0], h)
      && ReachesWell(Clock(s, ins[0]), Record(s, ins[0], h), ins[1..], t, g)
  }

  /** In every reachable state, whatever masters and slaves do, the copies of the grants agree. */
  lemma {:induction false} AlwaysRouted(s: State, ins: seq<Input>, t: State)
    requires Routed(s) && Reaches(s, ins, t)
    ensures Routed(t)
    decreases |ins|
  {
    if ins != [] {
      ClockKeepsRouted(s, ins[0]);
      AlwaysRouted(Clock(s, ins[0]), ins[1..], t);
    }
  }

  lemma {:induction false} AlwaysConserved(s: State, h: History, ins: seq<Input>, t: State, g: History)
    requires Conserved(s, h) && ReachesWell(s, h, ins, t, g)
    ensures Conserved(t, g)
    decreases |ins|
  {
    if ins != [] {
      ClockConserves(s, ins[0], h);
      AlwaysConserved(Clock(s, ins[0]), Record(s, ins[0], h), ins[1..], t, g);
    }
  }

  lemma InitialConserved(indices: seq<nat>, slaveIndices: seq<nat>, lg: nat)
    requires InRange(indices, slaveIndices) && lg >= 3
    ensures Conserved(Initial(indices, slaveIndices, lg), NoHistory(|indices|, |slaveIndices|))
  {
    TopIsLarge(lg);
  }

  /**
   * The arbiter's invariant, in every state a run from reset can reach, for any number of masters
   * and slaves: a slave is marked granted exactly when one master has it, `sindex` names that
   * master, its `mindex` names the slave, and `mgrant` holds exactly when one grant bit does.
   */
  lemma GrantsAgree(indices: seq<nat>, slaveIndices: seq<nat>, lg: nat, ins: seq<Input>, t: State)
    requires InRange(indices, slaveIndices) && lg >= 3 && Reaches(Initial(indices, slaveIndices, lg), ins, t)
    ensures forall m | 0 <= m < |t.ss| :: t.ss[m].granted <==> exists n :: 0 <= n < |t.ms| && m in t.ms[n].grant
    ensures forall m, n | 0 <= m < |t.ss| && 0 <= n < |t.ms| && m in t.ms[n].grant ::
              t.ss[m].index == n && t.ms[n].index == m
    ensures forall n | 0 <= n < |t.ms| :: t.ms[n].granted <==> exists m :: 0 <= m <= |t.ss| && t.ms[n].grant == {m}
    ensures forall n | 0 <= n < |t.ms| :: !t.ms[n].granted <==> t.ms[n].grant == {}
  {
    InitialConserved(indices, slaveIndices, lg);
    AlwaysRouted(Initial(indices, slaveIndices, lg), ins, t);
    forall n | 0 <= n < |t.ms|
      ensures t.ms[n].granted <==> exists m :: 0 <= m <= |t.ss| && t.ms[n].grant == {m}
      ensures !t.ms[n].granted <==> t.ms[n].grant == {}
    {
      assert OneGrant(t, n);
      if t.ms[n].grant != {} {
        var m :| m in t.ms[n].grant;
        assert t.ms[n].grant == {m};
      }
    }
    forall m, n | 0 <= m < |t.ss| && 0 <= n < |t.ms| && m in t.ms[n].grant
      ensures t.ss[m].index == n && t.ms[n].index == m && t.ss[m].granted
    {
      assert Owns(t, n, m);
    }
  }

  /**
   * The books of every run that starts at reset: the count and its flags are right and never wrap;
   * the requests a master waits for are the one being acknowledged to it, those its slave still
   * has, and the one on the slave's bus, in that order; and an acknowledgment is for the oldest of
   * them, with the data the slave gave for it. What a slave is given some master has asked it for, with
   * the data of a write.
   */
  lemma EveryRunConserves(indices: seq<nat>, slaveIndices: seq<nat>, lg: nat, ins: seq<Input>, t: State, g: History)
    requires InRange(indices, slaveIndices) && lg >= 3
    requires ReachesWell(Initial(indices, slaveIndices, lg), NoHistory(|indices|, |slaveIndices|), ins, t, g)
    ensures Conserved(t, g)
    ensures forall n | 0 <= n < |t.ms| && t.ms[n].ack ::
              g.sent[n] != [] && g.answer[n] == Answer(g.sent[n][0], t.ms[n].data)
    ensures forall n, m | 0 <= n < |t.ms| && 0 <= m < |t.ss| && m in t.ms[n].grant && !t.ms[n].err && !g.aborting[n] ::
              t.ms[n].pending == |g.atSlave[m]| + (if t.ss[m].stb then 1 else 0) + (if t.ms[n].ack then 1 else 0)
    ensures forall m | 0 <= m < |t.ss| && t.ss[m].stb :: AskedFor(ins, m, t.ss[m].req)
    ensures forall n, k | 0 <= n < |t.ms| && 0 <= k < |g.sent[n]| :: AskedBy(ins, n, g.sent[n][k])
  {
    InitialConserved(indices, slaveIndices, lg);
    AlwaysAsked([], Initial(indices, slaveIndices, lg), NoHistory(|indices|, |slaveIndices|), ins, t, g);
    assert [] + ins == ins;
    AlwaysConserved(Initial(indices, slaveIndices, lg), NoHistory(|indices|, |slaveIndices|), ins, t, g);
    forall n | 0 <= n < |t.ms| && t.ms[n].ack
      ensures g.sent[n] != [] && g.answer[n] == Answer(g.sent[n][0], t.ms[n].data)
    {
      AckMeansSent(t, g, n);
    }
    forall n, m | 0 <= n < |t.ms| && 0 <= m < |t.ss| && m in t.ms[n].grant && !t.ms[n].err && !g.aborting[n]
      ensures t.ms[n].pending == |g.atSlave[m]| + (if t.ss[m].stb then 1 else 0) + (if t.ms[n].ack then 1 else 0)
    {
      assert InFlight(t, g, n, m) && Counted(t, g, n);
    }
  }

  /** A master that keeps its cycle open does not change slave while it has requests pending. */
  lemma PendingHoldsSlave(s: State, i: Input, h: History, n: nat)
    requires Fits(s, i) && Conserved(s, h) && n < |s.ms|
    requires h.sent[n] != [] && i.ms[n].cyc && !i.reset
    ensures Clock(s, i).ms[n].grant == s.ms[n].grant
    ensures exists m :: 0 <= m < |s.ss| && s.ms[n].grant == {m}
  {
    assert OneGrant(s, n) && Counted(s, h, n);
    assert !Settled(s, h, n);
    var m :| m in s.ms[n].grant;
    assert m != |s.ss|;
  }

  /**
   * Why a master must drop its cycle after an error: on that clock the counter is cleared, yet a
   * request still in the decoder is issued, so slave and count agree exactly when there is none.
   */
  lemma ErrorClockIssuesRequest(s: State, i: Input, h: History, n: nat, m: nat)
    requires Fits(s, i) && Conserved(s, h) && WellBehaved(s, i, h)
    requires n < |s.ms| && m < |s.ss| && m in s.ms[n].grant
    requires s.ms[n].err && !h.aborting[n] && i.ms[n].cyc && !i.reset
    ensures var t := Clock(s, i);
            t.ms[n].pending == 0 && (t.ss[m].stb <==> Wants(i, n, m) && !s.ms[n].full)
  {
    assert OneGrant(s, n) && Owns(s, n, m) && InFlight(s, h, n, m) && SlaveAtRest(s, h, m);
    assert Outstanding(s, i, h, m) == [];
  }

  // ----- a request that strays

  function OneToOne(master: Master, slave: Slave): State {
    State([master], [slave], 3)
  }

  function Both(master: MasterIn, slave: SlaveIn): Input {
    Input(false, [master], [slave])
  }

  const IDLE_SLAVE := SlaveIn(false, false, false, 0)

  /** One master and one slave, the master not holding on after an error. */
  predicate Lone(h: History) {
    |h.sent| == |h.answer| == |h.aborting| == |h.atSlave| == 1 && !h.aborting[0]
  }

  lemma StaysLone(s: State, i: Input, h: History)
    requires Fits(s, i) && Sized(s, h) && Lone(h) && |s.ms| == 1 && |s.ss| == 1 && !s.ms[0].err
    ensures Lone(Record(s, i, h))
  {
  }

  /** The master is granted its slave. */
  lemma StrayGrant(r: Request, h: History)
    requires Lone(h)
    ensures var i := Both(MasterIn(true, true, 0, r), IDLE_SLAVE);
            var s := OneToOne(Master({}, false, 0, 0, true, false, false, false, false, 0), Slave(false, 0, false, false, NO_REQUEST));
            Fits(s, i) && Sized(s, h) && WellBehaved(s, i, h) && Clock(s, i) == OneToOne(Master({0}, true, 0, 0, true, false, false, false, false, 0),
                                                  Slave(true, 0, false, false, NO_REQUEST))
  {
    var i := Both(MasterIn(true, true, 0, r), IDLE_SLAVE);
    var s := OneToOne(Master({}, false, 0, 0, true, false, false, false, false, 0), Slave(false, 0, false, false, NO_REQUEST));
    assert Wants(i, 0, 0) && Able(s, 0);
  }

  /** Its first request goes to the slave. */
  lemma StrayRequest(r: Request, h: History)
    requires Lone(h)
    ensures var i := Both(MasterIn(true, true, 0, r), IDLE_SLAVE);
            var s := OneToOne(Master({0}, true, 0, 0, true, false, false, false, false, 0), Slave(true, 0, false, false, NO_REQUEST));
            Fits(s, i) && Sized(s, h) && WellBehaved(s, i, h) && Clock(s, i) == OneToOne(Master({0}, true, 0, 1, false, false, false, false, false, 0),
                                                  Slave(true, 0, true, true, Forwarded(r)))
  {
    TopIsLarge(3);
  }

  /** The slave fails it. */
  lemma StrayError(r: Request, h: History)
    requires Lone(h)
    ensures var i := Both(MasterIn(true, false, 0, r), SlaveIn(false, false, true, 0));
            var s := OneToOne(Master({0}, true, 0, 1, false, false, false, false, false, 0), Slave(true, 0, true, true, Forwarded(r)));
            Fits(s, i) && Sized(s, h) && WellBehaved(s, i, h) && Clock(s, i) == OneToOne(Master({0}, true, 0, 1, false, false, false, false, true, 0),
                                                  Slave(true, 0, false, false, Forwarded(r)))
  {
  }

  /** The master asks on, in the clock that clears its count. */
  lemma StrayClock(r: Request, h: History)
    requires Lone(h)
    ensures var i := Both(MasterIn(true, true, 0, r), IDLE_SLAVE);
            var s := OneToOne(Master({0}, true, 0, 1, false, false, false, false, true, 0), Slave(true, 0, false, false, Forwarded(r)));
            Fits(s, i) && Sized(s, h) && WellBehaved(s, i, h) && Clock(s, i) == OneToOne(Master({0}, true, 0, 0, true, false, false, false, false, 0),
                                                  Slave(true, 0, true, true, Forwarded(r)))
  {
  }

  lemma ReachesOn(s: State, h: History, i: Input, ins: seq<Input>, t: State, g: History)
    requires Fits(s, i) && Sized(s, h) && WellBehaved(s, i, h)
    requires ReachesWell(Clock(s, i), Record(s, i, h), ins, t, g)
    ensures ReachesWell(s, h, [i] + ins, t, g)
  {
    assert ([i] + ins)[1..] == ins;
  }

  /** Where the run ends: with the strobe set, and nothing counted or sent. */
  ghost predicate Strayed(t: State, g: History, r: Request) {
    && t == OneToOne(Master({0}, true, 0, 0, true, false, false, false, false, 0), Slave(true, 0, true, true, Forwarded(r)))
    && |g.sent| == 1 && g.sent[0] == []
  }

  lemma StraysAfterError(r: Request, h: History) returns (ins: seq<Input>, t: State, g: History)
    requires Lone(h)
    ensures var s := OneToOne(Master({0}, true, 0, 1, false, false, false, false, true, 0), Slave(true, 0, false, false, Forwarded(r)));
            ReachesWell(s, h, ins, t, g) && Strayed(t, g, r)
  {
    var ask := Both(MasterIn(true, true, 0, r), IDLE_SLAVE);
    var s := OneToOne(Master({0}, true, 0, 1, false, false, false, false, true, 0), Slave(true, 0, false, false, Forwarded(r)));
    StrayClock(r, h);
    t, g, ins := Clock(s, ask), Record(s, ask, h), [ask] + [];
    ReachesOn(s, h, ask, [], t, g);
  }

  lemma StraysAfterRequest(r: Request, h: History) returns (ins: seq<Input>, t: State, g: History)
    requires Lone(h)
    ensures var s := OneToOne(Master({0}, true, 0, 1, false, false, false, false, false, 0), Slave(true, 0, true, true, Forwarded(r)));
            ReachesWell(s, h, ins, t, g) && Strayed(t, g, r)
  {
    var fail := Both(MasterIn(true, false, 0, r), SlaveIn(false, false, true, 0));
    var s := OneToOne(Master({0}, true, 0, 1, false, false, false, false, false, 0), Slave(true, 0, true, true, Forwarded(r)));
    StrayError(r, h);
    StaysLone(s, fail, h);
    var rest;
    rest, t, g := StraysAfterError(r, Record(s, fail, h));
    ins := [fail] + rest;
    ReachesOn(s, h, fail, rest, t, g);
  }

  lemma StraysAfterGrant(r: Request, h: History) returns (ins: seq<Input>, t: State, g: History)
    requires Lone(h)
    ensures var s := OneToOne(Master({0}, true, 0, 0, true, false, false, false, false, 0), Slave(true, 0, false, false, NO_REQUEST));
            ReachesWell(s, h, ins, t, g) && Strayed(t, g, r)
  {
    var ask := Both(MasterIn(true, true, 0, r), IDLE_SLAVE);
    var s := OneToOne(Master({0}, true, 0, 0, true, false, false, false, false, 0), Slave(true, 0, false, false, NO_REQUEST));
    StrayRequest(r, h);
    StaysLone(s, ask, h);
    var rest;
    rest, t, g := StraysAfterRequest(r, Record(s, ask, h));
    ins := [ask] + rest;
    ReachesOn(s, h, ask, rest, t, g);
  }

  /** It does happen: a run from reset, all by the rules so far, leaves a strobe that no count knows of. */
  lemma RequestStrays(r: Request) returns (ins: seq<Input>, t: State, g: History)
    ensures ReachesWell(Initial([0], [0], 3), NoHistory(1, 1), ins, t, g)
    ensures |t.ms| == |t.ss| == |g.sent| == 1
    ensures t.ms[0].pending == 0 && t.ms[0].empty && g.sent[0] == [] && t.ss[0].stb
    ensures t.ss[0].req.we == r.we && t.ss[0].req.addr == r.addr && t.ss[0].req.sel == r.sel
    ensures t.ss[0].req.data == if r.we then r.data else 0
  {
    var ask := Both(MasterIn(true, true, 0, r), IDLE_SLAVE);
    var s, h := Initial([0], [0], 3), NoHistory(1, 1);
    assert s == OneToOne(Master({}, false, 0, 0, true, false, false, false, false, 0), Slave(false, 0, false, false, NO_REQUEST));
    StrayGrant(r, h);
    StaysLone(s, ask, h);
    var rest;
    rest, t, g := StraysAfterGrant(r, Record(s, ask, h));
    ins := [ask] + rest;
    ReachesOn(s, h, ask, rest, t, g);
  }
}
