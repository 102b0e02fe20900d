/** Address commands: the shortest of the absolute and difference forms. */
module TtyAddress {
  import opened Words
  import opened TtyCodec
  import opened TtyPeer

  predicate Aligned(a: nat) {
    a < TWO32 && a % 4 == 0
  }

  /** The unsigned difference of two byte addresses, in words: never negative. */
  function Difference(a: nat, last: nat): (d: nat)
    requires a < TWO32 && last < TWO32
    ensures d < WORDS
  {
    (a + TWO32 - last) % TWO32 / 4
  }

  /** A difference command, or nothing when the difference is too large for one. */
  function DifferenceCodes(d: nat): seq<nat> {
    if d < 32 then [0x09] + Digits(d, 1)
    else if d < 2048 then [0x0b] + Digits(d, 2)
    else if d < 0x2_0000 then [0x0d] + Digits(d, 3)
    else if d < 0x80_0000 then [0x0f] + Digits(d, 4)
    else []
  }

  /** An absolute command in at most as many codes as `diff`, else `diff`. */
  function PreferAbsolute(addr: nat, diff: seq<nat>): seq<nat> {
    if addr <= 0x3f && (diff == [] || |diff| >= 2) then [0x08] + Digits(addr, 1)
    else if addr <= 0xfff && (diff == [] || |diff| >= 3) then [0x0a] + Digits(addr, 2)
    else if addr <= 0x3_ffff && (diff == [] || |diff| >= 4) then [0x0c] + Digits(addr, 3)
    else if addr <= 0xff_ffff && (diff == [] || |diff| >= 5) then [0x0e] + Digits(addr, 4)
    else if diff == [] then [0x00] + Digits(addr, 5)
    else diff
  }

  /** `encode_address` for an aligned address: `known` says whether `last` is where the peer is. */
  function AddressCodes(a: nat, known: bool, last: nat): seq<nat>
    requires a < TWO32 && last < TWO32
  {
    if known && a == last then []
    else PreferAbsolute(a / 4, if known then DifferenceCodes(Difference(a, last)) else [])
  }

  lemma AddressCodesAreCodes(a: nat, known: bool, last: nat)
    requires a < TWO32 && last < TWO32
    ensures var c := AddressCodes(a, known, last); |c| <= 6 && forall k | 0 <= k < |c| :: c[k] < 64
  {
  }

  // ----- every address arrives

  /** The peer sent to the word address `addr`. */
  function At(p: Peer, addr: nat): Option<Peer> {
    Some(p.(at := Some(addr), renewed := true))
  }

  /** The peer after an address command, if one is sent. */
  function Told(p: Peer, a: nat, known: bool, last: nat): (q: Peer)
    requires p.Valid() && a < TWO32
    ensures q.Valid()
  {
    if known && a == last then p else At(p, a / 4).value
  }

  lemma ShortFormDecodes(n: nat, digits: seq<nat>)
    requires 1 <= n <= 4 && |digits| == n
    ensures Length(6 + 2 * n) == n + 1 && Decode(6 + 2 * n, digits) == Goto(Value(digits))
    ensures Length(7 + 2 * n) == n + 1 && Decode(7 + 2 * n, digits) == Shift(Signed(Value(digits), n))
  {
  }

  lemma AbsoluteArrives(p: Peer, addr: nat, n: nat)
    requires p.Valid() && 1 <= n <= 4 && addr < Span(n)
    ensures Run(p, [6 + 2 * n] + Digits(addr, n)) == At(p, addr)
  {
    SmallValue(addr, n);
    ShortFormDecodes(n, Digits(addr, n));
    RunOne(p, 6 + 2 * n, Digits(addr, n), Goto(addr));
  }

  lemma FullArrives(p: Peer, addr: nat)
    requires p.Valid() && addr < WORDS
    ensures Run(p, [0] + Digits(addr, 5)) == At(p, addr)
  {
    ValueOfFive(addr);
    RunOne(p, 0, Digits(addr, 5), Goto(addr));
  }

  lemma DifferenceArrives(p: Peer, d: nat, n: nat)
    requires p.Valid() && p.at.Some? && 1 <= n <= 4 && 2 * d < Span(n)
    ensures Run(p, [7 + 2 * n] + Digits(d, n)) == At(p, Move(p.at.value, d))
  {
    SmallValue(d, n);
    ShortFormDecodes(n, Digits(d, n));
    RunOne(p, 7 + 2 * n, Digits(d, n), Shift(d));
  }

  lemma DifferenceReaches(a: nat, last: nat)
    requires Aligned(a) && Aligned(last)
    ensures Move(last / 4, Difference(a, last)) == a / 4
  {
  }

  lemma DifferenceIsShort(d: nat) returns (n: nat)
    requires d < 0x80_0000
    ensures 1 <= n <= 4 && 2 * d < Span(n) && DifferenceCodes(d) == [7 + 2 * n] + Digits(d, n)
  {
    Spans();
    n := if d < 32 then 1 else if d < 2048 then 2 else if d < 0x2_0000 then 3 else 4;
  }

  lemma PreferenceArrives(p: Peer, addr: nat, diff: seq<nat>)
    requires p.Valid() && addr < WORDS
    requires diff == [] || Run(p, diff) == At(p, addr)
    ensures Run(p, PreferAbsolute(addr, diff)) == At(p, addr)
  {
    Spans();
    var c := PreferAbsolute(addr, diff);
    if c != diff {
      if c[0] == 0 {
        FullArrives(p, addr);
      } else {
        AbsoluteArrives(p, addr, (c[0] - 6) / 2);
      }
    } else {
      assert diff != [];
    }
  }

  /** A peer that is where the host last left it is sent exactly to `a`. */
  lemma AddressArrives(p: Peer, a: nat, known: bool, last: nat)
    requires p.Valid() && Aligned(a) && Aligned(last)
    requires known ==> p.at == Some(last / 4)
    ensures Run(p, AddressCodes(a, known, last)) == Some(Told(p, a, known, last))
  {
    if known && a == last {
    } else {
      var d := Difference(a, last);
      if known && d < 0x80_0000 {
        var n := DifferenceIsShort(d);
        DifferenceArrives(p, d, n);
        DifferenceReaches(a, last);
      }
      PreferenceArrives(p, a / 4, if known then DifferenceCodes(d) else []);
    }
  }

  // ----- no shorter way forward

  /** An address command that takes the peer to `addr`. */
  ghost predicate Takes(p: Peer, c: nat, d: seq<nat>, addr: nat)
    requires p.Valid()
  {
    && (c < 4 || 8 <= c < 16) && 1 + |d| == Length(c) && (forall k | 0 <= k < |d| :: d[k] < 64)
    && Obey(p, Decode(c, d)) == At(p, addr)
  }

  predicate IsDifference(c: nat) {
    c >= 8 && c % 2 == 1
  }

  lemma AbsoluteIsBound(a: nat, known: bool, last: nat, n: nat)
    requires a < TWO32 && last < TWO32 && 1 <= n <= 4 && a / 4 < Span(n)
    ensures var c := AddressCodes(a, known, last); |c| <= n + 1 && (|c| == n + 1 ==> c[0] == 6 + 2 * n)
  {
    Spans();
  }

  lemma DifferenceIsBound(a: nat, last: nat, n: nat)
    requires a < TWO32 && last < TWO32 && 1 <= n <= 4 && 2 * Difference(a, last) < Span(n)
    ensures |AddressCodes(a, true, last)| <= n + 1
  {
    Spans();
  }

  /**
   * Among the absolute and forward-difference commands there is none shorter, and an absolute one
   * of the same length is preferred.
   */
  lemma NoShorterForward(p: Peer, a: nat, known: bool, last: nat, c: nat, d: seq<nat>)
    requires p.Valid() && Aligned(a) && Aligned(last)
    requires known ==> p.at == Some(last / 4)
    requires Takes(p, c, d, a / 4)
    requires IsDifference(c) ==> known && Signed(Value(d), |d|) >= 0
    ensures var e := AddressCodes(a, known, last);
            |e| <= 1 + |d| && (|e| == 1 + |d| && !IsDifference(c) ==> !IsDifference(e[0]))
  {
    TakesMeans(p, c, d, a / 4);
    if c < 4 {
      FullIsBound(a, known, last);
    } else if IsDifference(c) {
      SpanIsSmall(|d|);
      OnlyDifference(a, last, Value(d));
      DifferenceIsBound(a, last, |d|);
    } else {
      NoShorterAbsolute(a, known, last, c, |d|);
    }
  }

  lemma NoShorterAbsolute(a: nat, known: bool, last: nat, c: nat, n: nat)
    requires a < TWO32 && last < TWO32 && 1 <= n <= 4 && a / 4 < Span(n) && c == 6 + 2 * n
    ensures var e := AddressCodes(a, known, last); |e| <= 1 + n && (|e| == 1 + n ==> !IsDifference(e[0]))
  {
    AbsoluteIsBound(a, known, last, n);
  }

  lemma FullIsBound(a: nat, known: bool, last: nat)
    requires a < TWO32 && last < TWO32
    ensures var e := AddressCodes(a, known, last); |e| <= 6 && (|e| == 6 ==> e[0] == 0)
  {
  }

  /** What an address command does, by its kind. */
  lemma TakesMeans(p: Peer, c: nat, d: seq<nat>, addr: nat)
    requires p.Valid() && Takes(p, c, d, addr)
    ensures Value(d) < Span(|d|)
    ensures c >= 8 ==> 1 <= |d| <= 4 && c == |d| * 2 + if IsDifference(c) then 7 else 6
    ensures !IsDifference(c) && c >= 8 ==> Value(d) == addr
    ensures IsDifference(c) ==> p.at.Some? && Move(p.at.value, Signed(Value(d), |d|)) == addr
  {
    DigitsOfValue(d);
    if c >= 8 {
      FormOf(c, |d|);
      DecodesAddress(c, d);
      Landed(p, if IsDifference(c) then Shift(Signed(Value(d), |d|)) else Goto(Value(d)), addr);
    }
  }

  lemma FormOf(c: nat, n: nat)
    requires 8 <= c < 16 && 1 + n == Length(c)
    ensures 1 <= n <= 4 && c == n * 2 + if IsDifference(c) then 7 else 6
  {
  }

  lemma DecodesAddress(c: nat, d: seq<nat>)
    requires 8 <= c < 16
    ensures Decode(c, d) == if IsDifference(c) then Shift(Signed(Value(d), |d|)) else Goto(Value(d))
  {
  }

  lemma Landed(p: Peer, c: Command, addr: nat)
    requires p.Valid() && Obey(p, c) == At(p, addr)
    ensures c.Goto? ==> c.addr == addr
    ensures c.Shift? ==> p.at.Some? && Move(p.at.value, c.words) == addr
  {
    assert Obey(p, c).Some? && Obey(p, c).value.at == Some(addr);
  }

  lemma OnlyDifference(a: nat, last: nat, v: nat)
    requires Aligned(a) && Aligned(last) && v < WORDS && Move(last / 4, v) == a / 4
    ensures v == Difference(a, last)
  {
  }

  // ----- a shorter way back

  /** The command sent is as short as any. */
  ghost predicate Shortest(p: Peer, a: nat, last: nat)
    requires p.Valid() && Aligned(a) && Aligned(last)
  {
    forall c, d | Takes(p, c, d, a / 4) :: |AddressCodes(a, true, last)| <= 1 + |d|
  }

  /** A backward difference would fit `n` digits when neither the address nor the forward difference does. */
  predicate BackIsShorter(a: nat, last: nat, n: nat)
    requires a < TWO32 && last < TWO32
  {
    2 * Difference(last, a) <= Span(n) && a / 4 >= Span(n) && 2 * Difference(a, last) >= Span(n)
  }

  lemma BackArrives(p: Peer, a: nat, last: nat, n: nat)
    requires p.Valid() && Aligned(a) && Aligned(last) && p.at == Some(last / 4)
    requires 1 <= n <= 4 && a != last && BackIsShorter(a, last, n)
    ensures Takes(p, 7 + 2 * n, Digits(Span(n) - Difference(last, a), n), a / 4)
  {
    var back := Difference(last, a);
    BackDifference(a, last);
    SignedBack(back, n);
    SmallValue(Span(n) - back, n);
  }

  lemma BackDifference(a: nat, last: nat)
    requires Aligned(a) && Aligned(last) && a != last
    ensures var back := Difference(last, a); back > 0 && Move(last / 4, 0 - back) == a / 4
  {
  }

  lemma SignedBack(back: nat, n: nat)
    requires 0 < back && 2 * back <= Span(n)
    ensures Span(n) - back >= 0 && Signed(Span(n) - back, n) == 0 - back
  {
  }

  lemma BackIsBound(a: nat, last: nat, n: nat)
    requires a < TWO32 && last < TWO32 && 1 <= n <= 4 && a != last && BackIsShorter(a, last, n)
    ensures |AddressCodes(a, true, last)| > n + 1
  {
    Spans();
  }

  lemma SpanIsSmall(n: nat)
    requires 1 <= n <= 4
    ensures 64 <= Span(n) <= 0x100_0000
  {
    Spans();
  }

  lemma OnlyBack(a: nat, last: nat, back: nat)
    requires Aligned(a) && Aligned(last) && 0 < back < WORDS && Move(last / 4, 0 - back) == a / 4
    ensures back == Difference(last, a)
  {
  }

  lemma NoShorterBack(p: Peer, a: nat, last: nat, c: nat, d: seq<nat>)
    requires p.Valid() && Aligned(a) && Aligned(last) && p.at == Some(last / 4)
    requires Takes(p, c, d, a / 4) && IsDifference(c) && Signed(Value(d), |d|) < 0
    requires a == last || !BackIsShorter(a, last, |d|)
    ensures |AddressCodes(a, true, last)| <= 1 + |d|
  {
    TakesMeans(p, c, d, a / 4);
    var n := |d|;
    if a != last {
      SpanIsSmall(n);
      OnlyBack(a, last, Span(n) - Value(d));
      if a / 4 < Span(n) {
        AbsoluteIsBound(a, true, last, n);
      } else {
        DifferenceIsBound(a, last, n);
      }
    }
  }

  /**
   * The unsigned shift loses the short way back: the command is the shortest there is exactly when
   * no backward difference fits a size that the address and the forward difference do not.
   */
  lemma ShortestUnlessBackward(p: Peer, a: nat, last: nat)
    requires p.Valid() && Aligned(a) && Aligned(last) && p.at == Some(last / 4)
    ensures Shortest(p, a, last) <==> a == last || forall n | 1 <= n <= 4 :: !BackIsShorter(a, last, n)
  {
    if n :| 1 <= n <= 4 && a != last && BackIsShorter(a, last, n) {
      BackArrives(p, a, last, n);
      BackIsBound(a, last, n);
    } else {
      forall c, d | Takes(p, c, d, a / 4)
        ensures |AddressCodes(a, true, last)| <= 1 + |d|
      {
        if IsDifference(c) && Signed(Value(d), |d|) < 0 {
          NoShorterBack(p, a, last, c, d);
        } else {
          NoShorterForward(p, a, true, last, c, d);
        }
      }
    }
  }

  /** One word back from the middle of memory takes six codes instead of two. */
  lemma OneWordBackIsSentInFull()
    ensures Difference(0x1000_0000, 0x0fff_fffc) == 1
    ensures |AddressCodes(0x0fff_fffc, true, 0x1000_0000)| == 6
    ensures BackIsShorter(0x0fff_fffc, 0x1000_0000, 1)
  {
    Spans();
  }
}
