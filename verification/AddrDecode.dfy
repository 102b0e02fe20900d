/** The address decoder: which slave a request is for, registered for a clock. */
module AddrDecode {
  import opened Words
  import Skid = SkidBuffer

  /** One slave's entry of SLAVE_ADDR, SLAVE_MASK and ACCESS_ALLOWED. */
  datatype Region = Region(base: nat, mask: nat, allowed: bool)

  type Map = m: seq<Region> | |m| > 0 witness [Region(0, 0, true)]

  /** `prerequest` */
  predicate Matches(r: Region, addr: nat) {
    And(Xor(addr, r.base), r.mask) == 0 && r.allowed
  }

  /** A region's addresses are those that agree with its base in every bit of its mask. */
  lemma MatchesInBits(r: Region, addr: nat)
    ensures Matches(r, addr) <==> r.allowed && forall k: nat :: Bit(r.mask, k) ==> Bit(addr, k) == Bit(r.base, k)
  {
    var x := And(Xor(addr, r.base), r.mask);
    forall k: nat
      ensures Bit(x, k) == (Bit(r.mask, k) && Bit(addr, k) != Bit(r.base, k))
    {
      BitOfAnd(Xor(addr, r.base), r.mask, k);
      BitOfXor(addr, r.base, k);
    }
    NoBitsIsZero(x);
  }

  lemma {:induction false} NoBitsIsZero(x: nat)
    ensures x == 0 <==> forall k: nat :: !Bit(x, k)
  {
    if x == 0 {
      forall k: nat
        ensures !Bit(x, k)
      {
        ZeroBits(k);
      }
    } else if x % 2 == 1 {
      assert Bit(x, 0);
    } else {
      NoBitsIsZero(x / 2);
      var k: nat :| Bit(x / 2, k);
      assert Bit(x, k + 1);
    }
  }

  /** OPT_NONESEL: whether an address may belong to no slave. */
  predicate NoneSel(m: Map) {
    !m[0].allowed || m[0].mask != 0
  }

  /** Some slave from `k` on claims the address. */
  predicate Claimed(m: Map, addr: nat, k: nat) {
    exists i :: k <= i < |m| && Matches(m[i], addr)
  }

  /** Bit `i` of `request`: a slave, or past the last one, none at all. */
  predicate RequestBit(m: Map, valid: bool, addr: nat, i: nat) {
    if i < |m| then
      valid && Matches(m[i], addr) && !(i == 0 && !NoneSel(m) && Claimed(m, addr, 1))
    else
      i == |m| && NoneSel(m) && valid && !Claimed(m, addr, 0)
  }

  /** The combinational decode. */
  method Request(m: Map, valid: bool, addr: nat) returns (request: seq<bool>)
    ensures |request| == |m| + 1
    ensures forall i | 0 <= i <= |m| :: request[i] == RequestBit(m, valid, addr, i)
  {
    var prerequest := [];
    for i := 0 to |m|
      invariant |prerequest| == i
      invariant forall j | 0 <= j < i :: prerequest[j] == Matches(m[j], addr)
    {
      prerequest := prerequest + [Matches(m[i], addr)];
    }
    var others := false;
    for i := 1 to |m|
      invariant others == exists j :: 1 <= j < i && Matches(m[j], addr)
    {
      others := others || prerequest[i];
    }
    request := [];
    for i := 0 to |m|
      invariant |request| == i
      invariant forall j | 0 <= j < i :: request[j] == (valid && Matches(m[j], addr))
    {
      request := request + [valid && prerequest[i]];
    }
    if !NoneSel(m) && others {
      request := request[0 := false];
    }
    request := request + [NoneSel(m) && valid && !prerequest[0] && !others];
    assert Claimed(m, addr, 0) == (Matches(m[0], addr) || Claimed(m, addr, 1));
  }

  /** No address belongs to two slaves, but for a slave 0 that is the default for all of them. */
  ghost predicate Disjoint(m: Map) {
    forall addr: nat, i, j | 0 <= i < j < |m| && Matches(m[i], addr) && Matches(m[j], addr) :: i == 0 && !NoneSel(m)
  }

  /** The slave an address belongs to, or `|m|`. */
  function Target(m: Map, addr: nat): (t: nat)
    ensures t <= |m|
  {
    Highest(m, addr, |m|)
  }

  function Highest(m: Map, addr: nat, n: nat): (t: nat)
    requires n <= |m|
    ensures t == |m| || t < n
    ensures t < n ==> Matches(m[t], addr)
    ensures forall i | 0 <= i < n && (t == |m| || t < i) :: !Matches(m[i], addr)
  {
    if n == 0 then |m| else if Matches(m[n - 1], addr) then n - 1 else Highest(m, addr, n - 1)
  }

  /** With disjoint slaves exactly one request bit is set when there is a request, and none otherwise. */
  lemma OneHot(m: Map, valid: bool, addr: nat)
    requires Disjoint(m)
    ensures forall i: nat | i <= |m| :: RequestBit(m, valid, addr, i) <==> valid && i == Target(m, addr)
    ensures Target(m, addr) == |m| <==> !Claimed(m, addr, 0)
    ensures !NoneSel(m) ==> Target(m, addr) < |m|
  {
    var t := Target(m, addr);
    ZeroMaskMatches(m[0], addr);
    assert t < |m| ==> Matches(m[t], addr) && Claimed(m, addr, 0);
    assert t > 0 && t < |m| ==> Claimed(m, addr, 1);
  }

  lemma ZeroMaskMatches(r: Region, addr: nat)
    ensures r.allowed && r.mask == 0 ==> Matches(r, addr)
  {
  }

  // ----- the address map of the board's main bus

  /** The regions of `wb_xbar`, from slave 0 up: seven codes in the four address bits above bit 18. */
  const BOARD: Map := [
    Region(0x080000, 0x780000, true), Region(0x100000, 0x780000, true), Region(0x180000, 0x780000, true),
    Region(0x200000, 0x780000, true), Region(0x280000, 0x780000, true), Region(0x300000, 0x780000, true),
    Region(0x400000, 0x400000, true)]

  lemma MaskedBitsAgree(r: Region, addr: nat, k: nat)
    requires Matches(r, addr) && Bit(r.mask, k)
    ensures Bit(addr, k) == Bit(r.base, k)
  {
    BitOfAnd(Xor(addr, r.base), r.mask, k);
    BitOfXor(addr, r.base, k);
    ZeroBits(k);
  }

  /** An address's code; `code` and `mask` are those of a region. */
  lemma CodeAgrees(code: nat, mask: nat, addr: nat, j: nat)
    requires Matches(Region(code * 0x80000, mask * 0x80000, true), addr) && Bit(mask, j)
    ensures Bit(Shr(addr, 19), j) == Bit(code, j)
  {
    assert Pow2(19) == 0x80000 by { Pow2Words(); Pow2Add(16, 3); assert Pow2(3) == 8; }
    BitOfShifted(code, 19, 19 + j);
    BitOfShifted(mask, 19, 19 + j);
    MaskedBitsAgree(Region(code * 0x80000, mask * 0x80000, true), addr, 19 + j);
    BitOfShr(addr, 19, j);
  }

  ghost predicate HasCode(addr: nat, code: nat) {
    var q := Shr(addr, 19);
    Bit(q, 0) == Bit(code, 0) && Bit(q, 1) == Bit(code, 1) && Bit(q, 2) == Bit(code, 2) && Bit(q, 3) == Bit(code, 3)
  }

  lemma BoardRegion(i: nat, addr: nat)
    requires i < 7 && Matches(BOARD[i], addr)
    ensures i < 6 ==> HasCode(addr, i + 1)
    ensures i == 6 ==> Bit(Shr(addr, 19), 3)
  {
    if i < 6 {
      assert BOARD[i] == Region((i + 1) * 0x80000, 15 * 0x80000, true);
      forall j: nat | j < 4
        ensures Bit(Shr(addr, 19), j) == Bit(i + 1, j)
      {
        assert Bit(15, 0) && Bit(15, 1) && Bit(15, 2) && Bit(15, 3);
        CodeAgrees(i + 1, 15, addr, j);
      }
    } else {
      assert BOARD[i] == Region(8 * 0x80000, 8 * 0x80000, true);
      assert Bit(8, 3);
      CodeAgrees(8, 8, addr, 3);
    }
  }

  /** The board meets the decoder's assumption, and leaves some addresses to no slave. */
  lemma BoardIsDisjoint()
    ensures Disjoint(BOARD) && NoneSel(BOARD)
  {
    forall addr: nat, i, j | 0 <= i < j < 7 && Matches(BOARD[i], addr) && Matches(BOARD[j], addr)
      ensures false
    {
      BoardRegion(i, addr);
      BoardRegion(j, addr);
      Codes(i + 1, if j < 6 then j + 1 else 8);
    }
  }

  lemma Codes(c: nat, d: nat)
    requires 1 <= c < d <= 8
    ensures Bit(c, 0) != Bit(d, 0) || Bit(c, 1) != Bit(d, 1) || Bit(c, 2) != Bit(d, 2) || Bit(c, 3) != Bit(d, 3)
    ensures !Bit(c, 3)
  {
    CodeValue(c);
    CodeValue(d);
  }

  lemma CodeValue(c: nat)
    requires c < 16
    ensures c == (if Bit(c, 3) then 8 else 0) + (if Bit(c, 2) then 4 else 0) + (if Bit(c, 1) then 2 else 0)
                 + (if Bit(c, 0) then 1 else 0)
  {
    assert Shr(c, 1) == Shr(c / 2, 0) == c / 2;
    assert Shr(c, 2) == Shr(c / 2, 1) == Shr(c / 2 / 2, 0) == c / 2 / 2;
    assert Shr(c, 3) == Shr(c / 2, 2) == Shr(c / 2 / 2, 1) == Shr(c / 2 / 2 / 2, 0) == c / 2 / 2 / 2;
  }

  // ----- the registered output

  /** The register, and the skid buffer in front of it. */
  datatype Stage<T> = Stage(skid: Skid.Skid<(nat, T)>, valid: bool, decode: seq<bool>, addr: nat, data: T) {
    /** `o_stall` */
    predicate Stalled(stall: bool) { valid && stall }
  }

  datatype Input<T> = Input(valid: bool, addr: nat, data: T, stall: bool)

  /** What the skid buffer sees: the decoder is ready for it when not stalled. */
  function SkidInput<T>(s: Stage<T>, i: Input<T>): Skid.Input<(nat, T)> {
    Skid.Input(false, i.valid, (i.addr, i.data), !s.Stalled(i.stall))
  }

  function Decoded(m: Map, valid: bool, addr: nat): (d: seq<bool>)
    ensures |d| == |m| + 1
  {
    seq(|m| + 1, k requires 0 <= k <= |m| => RequestBit(m, valid, addr, k))
  }

  /** One clock of the pair, without reset. */
  function Clock<T>(m: Map, s: Stage<T>, i: Input<T>): Stage<T> {
    var si := SkidInput(s, i);
    var (addr, data) := s.skid.Data(si);
    if s.Stalled(i.stall) then s.(skid := s.skid.Clock(si))
    else Stage(s.skid.Clock(si), s.skid.Valid(si), Decoded(m, s.skid.Valid(si), addr), addr, data)
  }

  /** The decode always belongs to the address beside it. */
  ghost predicate Consistent<T>(m: Map, s: Stage<T>) {
    s.decode == Decoded(m, s.valid, s.addr)
  }

  function Run<T>(m: Map, s: Stage<T>, ins: seq<Input<T>>): Stage<T>
    decreases |ins|
  {
    if ins == [] then s else Run(m, Clock(m, s, ins[0]), ins[1..])
  }

  function Accepted<T>(m: Map, s: Stage<T>, ins: seq<Input<T>>): seq<(nat, T)>
    decreases |ins|
  {
    if ins == [] then []
    else
      (if ins[0].valid && s.skid.Ready() then [(ins[0].addr, ins[0].data)] else [])
        + Accepted(m, Clock(m, s, ins[0]), ins[1..])
  }

  function Delivered<T>(m: Map, s: Stage<T>, ins: seq<Input<T>>): seq<(nat, T)>
    decreases |ins|
  {
    if ins == [] then []
    else
      (if s.valid && !ins[0].stall then [(s.addr, s.data)] else []) + Delivered(m, Clock(m, s, ins[0]), ins[1..])
  }

  function Buffered<T>(s: Stage<T>): seq<(nat, T)> {
    (if s.valid then [(s.addr, s.data)] else []) + s.skid.Buffered()
  }

  /**
   * The requests accepted are those delivered and at most two that wait, in order; and whenever
   * the slaves are disjoint, what is delivered has exactly the bit of its slave set.
   */
  lemma {:induction false} Conserves<T>(m: Map, s: Stage<T>, ins: seq<Input<T>>)
    requires Disjoint(m) && Consistent(m, s)
    ensures var t := Run(m, s, ins);
            && Buffered(s) + Accepted(m, s, ins) == Delivered(m, s, ins) + Buffered(t)
            && |Buffered(t)| <= 2
            && |t.decode| == |m| + 1
            && forall k | 0 <= k <= |m| :: t.decode[k] <==> t.valid && k == Target(m, t.addr)
    decreases |ins|
  {
    if ins == [] {
      OneHot(m, s.valid, s.addr);
    } else {
      var i, t := ins[0], Clock(m, s, ins[0]);
      Conserves(m, t, ins[1..]);
      var a := if i.valid && s.skid.Ready() then [(i.addr, i.data)] else [];
      var d := if s.valid && !i.stall then [(s.addr, s.data)] else [];
      ClockConserves(m, s, i);
      Skid.Telescope(Buffered(s), a, d, Buffered(t), Accepted(m, t, ins[1..]), Delivered(m, t, ins[1..]),
                     Buffered(Run(m, s, ins)));
    }
  }

  lemma ClockConserves<T>(m: Map, s: Stage<T>, i: Input<T>)
    ensures Buffered(s) + (if i.valid && s.skid.Ready() then [(i.addr, i.data)] else [])
         == (if s.valid && !i.stall then [(s.addr, s.data)] else []) + Buffered(Clock(m, s, i))
  {
    var t, si := Clock(m, s, i), SkidInput(s, i);
    var a := if i.valid && s.skid.Ready() then [(i.addr, i.data)] else [];
    var now := if s.valid then [(s.addr, s.data)] else [];
    if s.Stalled(i.stall) {
      assert t.skid.Buffered() == s.skid.Buffered() + a;
      assert now + s.skid.Buffered() + a == now + (s.skid.Buffered() + a);
    } else {
      assert t.skid.Buffered() == [];
      assert s.skid.Data(si) == (t.addr, t.data);
      assert Buffered(t) == s.skid.Buffered() + a;
      assert now + s.skid.Buffered() + a == now + (s.skid.Buffered() + a);
    }
  }

  /** A request the crossbar stalls stays as it is. */
  lemma StallHolds<T>(m: Map, s: Stage<T>, i: Input<T>)
    requires s.valid && i.stall
    ensures var t := Clock(m, s, i); t.valid && t.decode == s.decode && t.addr == s.addr && t.data == s.data
  {
  }
}
