/**
 * The crossbar as the clocked object it is: combinational vectors built by index loops, and
 * registers that change together on a clock.
 */
module Interconnect {
  import opened Words
  import opened Crossbar

  /** Which masters' claims come before each master's own, slave by slave. */
  method PriorRequests(s: State, i: Input) returns (requested: seq<seq<bool>>)
    requires Fits(s, i)
    ensures |requested| == |s.ms|
    ensures forall n | 0 <= n < |s.ms| :: |requested[n]| == |s.ss|
    ensures forall n, m | 0 <= n < |s.ms| && 0 <= m < |s.ss| :: requested[n][m] == Requested(s, i, n, m)
  {
    var row := seq(|s.ss|, m => false);
    requested := [row];
    var n := 1;
    while n < |s.ms|
      invariant 1 <= n <= |s.ms| && |requested| == n
      invariant forall k | 0 <= k < n :: |requested[k]| == |s.ss|
      invariant forall k, m | 0 <= k < n && 0 <= m < |s.ss| :: requested[k][m] == Requested(s, i, k, m)
    {
      row := RequestsAfter(s, i, n, requested[n - 1]);
      requested := requested + [row];
      n := n + 1;
    }
  }

  method RequestsAfter(s: State, i: Input, n: nat, prior: seq<bool>) returns (row: seq<bool>)
    requires Fits(s, i) && 0 < n < |s.ms| && |prior| == |s.ss|
    requires forall m | 0 <= m < |s.ss| :: prior[m] == Requested(s, i, n - 1, m)
    ensures |row| == |s.ss|
    ensures forall m | 0 <= m < |s.ss| :: row[m] == Requested(s, i, n, m)
  {
    row := [];
    var m := 0;
    while m < |s.ss|
      invariant 0 <= m <= |s.ss| && |row| == m
      invariant forall k | 0 <= k < m :: row[k] == Requested(s, i, n, k)
    {
      var claimed := prior[m];
      if Wants(i, n - 1, m) && (m in s.ms[n - 1].grant || !s.ms[n - 1].granted || s.ms[n - 1].empty) {
        claimed := true;
      }
      row := row + [claimed];
      m := m + 1;
    }
  }

  /** The register that names a master's slave. */
  method MasterReindex(s: State, i: Input, n: nat, requested: seq<bool>) returns (index: nat)
    requires Fits(s, i) && n < |s.ms| && |requested| == |s.ss|
    requires forall m | 0 <= m < |s.ss| :: requested[m] == Requested(s, i, n, m)
    ensures index == NextIndex(s, i, n)
  {
    if |s.ss| == 1 {
      return 0;
    }
    ghost var claimed := set m | 0 <= m <= |s.ss| && Claims(s, i, n, m);
    var r := s.ms[n];
    var m, regrants := 0, false;
    index := 0;
    while m <= |s.ss|
      invariant 0 <= m <= |s.ss| + 1
      invariant index == OrOf(claimed, m)
      invariant regrants == exists k :: 0 <= k < m && k in claimed
    {
      var regrant := m in r.grant || (m < |s.ss| && !s.ss[m].granted && !requested[m]);
      if !Wants(i, n, m) || (r.granted && !r.empty) {
        regrant := false;
      }
      assert regrant == (m in claimed);
      if regrant {
        regrants := true;
        index := Or(index, m);
      } else {
        OrZero(index);
      }
      m := m + 1;
    }
    if !regrants {
      assert claimed == {};
      index := r.index;
    }
  }

  /** The register that names a slave's master. */
  method SlaveReindex(s: State, i: Input, m: nat, requested: seq<seq<bool>>) returns (index: nat)
    requires Fits(s, i) && m < |s.ss| && |requested| == |s.ms|
    requires forall n | 0 <= n < |s.ms| :: |requested[n]| == |s.ss| && requested[n][m] == Requested(s, i, n, m)
    ensures index == NextSlaveIndex(s, i, m)
  {
    if |s.ms| <= 1 {
      return 0;
    }
    ghost var claimants := set n | 0 <= n < |s.ms| && Claims(s, i, n, m);
    var n, regrants := 0, false;
    index := 0;
    while n < |s.ms|
      invariant 0 <= n <= |s.ms|
      invariant index == OrOf(claimants, n)
      invariant regrants == exists k :: 0 <= k < n && k in claimants
    {
      var r := s.ms[n];
      var regrant := m in r.grant || (!s.ss[m].granted && !requested[n][m]);
      if !Wants(i, n, m) || (r.granted && !r.empty) {
        regrant := false;
      }
      assert regrant == (n in claimants);
      if regrant {
        regrants := true;
        index := Or(index, n);
      } else {
        OrZero(index);
      }
      n := n + 1;
    }
    if !regrants {
      assert claimants == {};
      index := s.ss[m].index;
    }
  }

  /** The register that says a slave is taken. */
  method SlaveGrant(s: State, i: Input, m: nat) returns (granted: bool)
    requires Fits(s, i) && m < |s.ss|
    ensures granted == NextSlaveGranted(s, i, m)
  {
    granted := s.ss[m].granted;
    var n := 0;
    while n < |s.ms|
      invariant 0 <= n <= |s.ms|
      invariant granted == (s.ss[m].granted || exists k :: 0 <= k < n && Wants(i, k, m) && Able(s, k))
    {
      if Wants(i, n, m) && (!s.ms[n].granted || s.ms[n].empty) {
        granted := true;
      }
      n := n + 1;
    }
    if Drops(s, i, m) {
      granted := false;
    }
  }

  /** A master's grant vector, and whether any of it is set. */
  method MasterGrant(s: State, i: Input, n: nat, requested: seq<bool>) returns (grant: set<nat>, granted: bool)
    requires Fits(s, i) && n < |s.ms| && |requested| == |s.ss|
    requires forall m | 0 <= m < |s.ss| :: requested[m] == Requested(s, i, n, m)
    ensures (grant, granted) == NextGrant(s, i, n)
  {
    var r, port := s.ms[n], i.ms[n];
    var asks := port.cyc && port.stb;
    var stays := asks && port.target in r.grant;
    if r.granted && !r.empty {
      stays := true;
    }
    var available := asks && port.target < |s.ss| && !s.ss[port.target].granted && !requested[port.target];
    if asks && port.target == |s.ss| {
      available := true;
    }
    if |s.ms| < 2 {
      available := asks && !r.full;
    }
    grant, granted := r.grant, r.granted;
    if i.reset || !port.cyc {
      grant, granted := {}, false;
    } else if !stays {
      if available {
        grant, granted := {port.target}, true;
      } else if asks && !r.full {
        grant, granted := {}, false;
      }
    }
  }

  /** `m_stall` */
  method MasterStalls(s: State, i: Input, n: nat) returns (stalls: bool)
    requires Fits(s, i) && n < |s.ms|
    ensures stalls == Stalls(s, i, n)
  {
    var r, port := s.ms[n], i.ms[n];
    var asks := port.cyc && port.stb;
    if |s.ss| in r.grant {
      stalls := true;
    } else if r.granted && asks && port.target == r.index {
      stalls := r.full || r.index == |s.ss| || (s.ss[r.index].stb && i.ss[r.index].stall);
    } else {
      stalls := asks && !r.full;
    }
    if r.err {
      stalls := false;
    }
  }

  /** The pending count, and the three flags kept beside it. */
  method CountPending(s: State, i: Input, n: nat) returns (c: Count)
    requires Fits(s, i) && n < |s.ms|
    ensures c == NextCount(s, i, n)
  {
    var r, port := s.ms[n], i.ms[n];
    var stalls := MasterStalls(s, i, n);
    var push := !r.full && port.cyc && port.stb && !stalls;
    var pending, empty, nearFull, full := r.pending, r.empty, r.nearFull, r.full;
    var top := Pow2(s.lg);
    if i.reset || !port.cyc || r.err {
      pending, empty, nearFull, full := 0, true, false, false;
    } else if !push && r.ack {
      empty, nearFull, full := r.pending == 1, r.full, false;
      pending := (r.pending - 1) % top;
    } else if push && !r.ack {
      empty, nearFull, full := false, r.pending / 4 + 1 == top / 4 && r.pending % 4 != 0, r.nearFull;
      pending := (r.pending + 1) % top;
    }
    c := Count(pending, empty, nearFull, full);
  }

  /** The registered acknowledgement, error and data of a master. */
  method ReturnPath(s: State, i: Input, n: nat) returns (ack: bool, err: bool, data: nat)
    requires Fits(s, i) && n < |s.ms|
    ensures (ack, err, data) == NextReturn(s, i, n)
  {
    var r := s.ms[n];
    ack, err, data := false, r.granted, 0;
    if r.index < |s.ss| {
      var u, port := s.ss[r.index], i.ss[r.index];
      ack, err := r.granted && u.cyc && port.ack, r.granted && u.cyc && port.err;
      if r.granted {
        data := port.data;
      }
    }
    if |s.ss| in r.grant {
      ack, err := false, !r.err;
    }
    if i.reset || !i.ms[n].cyc || r.err {
      ack, err := false, false;
    }
  }

  /** The cycle and strobe lines of a slave. */
  method SlaveStrobe(s: State, i: Input, m: nat) returns (cyc: bool, stb: bool)
    requires Fits(s, i) && m < |s.ss|
    ensures (cyc, stb) == NextStrobe(s, i, m)
  {
    var u, port := s.ss[m], i.ss[m];
    var owner := i.ms[u.index];
    cyc, stb := false, false;
    if u.granted && owner.cyc {
      cyc, stb := true, u.stb;
      if !u.stb || !port.stall {
        stb := owner.stb && owner.target == m && !s.ms[u.index].full;
      }
    }
    if i.reset || (u.cyc && port.err) {
      cyc, stb := false, false;
    }
  }

  /** The request lines of a slave; a read carries no data. */
  method SlaveRequest(s: State, i: Input, m: nat) returns (req: Request)
    requires Fits(s, i) && m < |s.ss|
    ensures req == NextRequest(s, i, m)
  {
    var u := s.ss[m];
    req := u.req;
    if !u.granted {
      req := NO_REQUEST;
    } else if !u.stb || !i.ss[m].stall {
      req := i.ms[u.index].req;
      if !req.we {
        req := req.(data := 0);
      }
    }
  }

  class Switch {
    const lg: nat
    var masters: seq<Master>
    var slaves: seq<Slave>

    function Snapshot(): State
      reads this
    {
      State(masters, slaves, lg)
    }

    /** The index registers are left as they happen to be. */
    constructor (indices: seq<nat>, slaveIndices: seq<nat>, lgMaxBurst: nat)
      ensures Snapshot() == Initial(indices, slaveIndices, lgMaxBurst)
    {
      var reset := Initial(indices, slaveIndices, lgMaxBurst);
      masters, slaves, lg := reset.ms, reset.ss, lgMaxBurst;
    }

    method Tick(i: Input)
      requires Fits(Snapshot(), i)
      modifies this
      ensures Snapshot() == Clock(old(Snapshot()), i)
    {
      var s := Snapshot();
      var requested := PriorRequests(s, i);
      var ms, ss := [], [];
      var n := 0;
      while n < |s.ms|
        invariant 0 <= n <= |s.ms| && |ms| == n
        invariant forall k | 0 <= k < n :: ms[k] == NextMaster(s, i, k)
      {
        var index := MasterReindex(s, i, n, requested[n]);
        var grant, granted := MasterGrant(s, i, n, requested[n]);
        var c := CountPending(s, i, n);
        var ack, err, data := ReturnPath(s, i, n);
        ms := ms + [Master(grant, granted, index, c.pending, c.empty, c.nearFull, c.full, ack, err, data)];
        n := n + 1;
      }
      var m := 0;
      while m < |s.ss|
        invariant 0 <= m <= |s.ss| && |ss| == m
        invariant forall k | 0 <= k < m :: ss[k] == NextSlave(s, i, k)
      {
        var index := SlaveReindex(s, i, m, requested);
        var granted := SlaveGrant(s, i, m);
        var cyc, stb := SlaveStrobe(s, i, m);
        var req := SlaveRequest(s, i, m);
        ss := ss + [Slave(granted, index, cyc, stb, req)];
        m := m + 1;
      }
      masters, slaves := ms, ss;
      assert ms == Clock(s, i).ms && ss == Clock(s, i).ss;
    }
  }
}
