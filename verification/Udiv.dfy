/** The 64-bit division support routines of the board's run-time library. */
module Udiv {
  import opened Words

  // ----- counting leading zeros

  /** The position of the lowest set bit. */
  ghost function LowestBit(x: nat): (k: nat)
    requires x > 0
  {
    if x % 2 == 1 then 0 else 1 + LowestBit(x / 2)
  }

  /** The position of the highest set bit. */
  ghost function HighestBit(x: nat): (k: nat)
    requires x > 0
  {
    if x == 1 then 0 else 1 + HighestBit(x / 2)
  }

  lemma {:induction false} LowestBitIsLowest(x: nat)
    requires x > 0
    ensures Bit(x, LowestBit(x))
    ensures forall k: nat | k < LowestBit(x) :: !Bit(x, k)
  {
    if x % 2 == 0 {
      LowestBitIsLowest(x / 2);
      forall k: nat | k < LowestBit(x)
        ensures !Bit(x, k)
      {
        assert k == 0 || !Bit(x / 2, k - 1);
      }
    }
  }

  lemma {:induction false} HighestBitIsHighest(x: nat)
    requires x > 0
    ensures Pow2(HighestBit(x)) <= x < Pow2(HighestBit(x) + 1)
    ensures Bit(x, HighestBit(x))
    ensures forall k: nat | k > HighestBit(x) :: !Bit(x, k)
  {
    if x == 1 {
      forall k: nat | k > 0
        ensures !Bit(x, k)
      {
        ShrZero(k - 1);
      }
    } else {
      HighestBitIsHighest(x / 2);
      forall k: nat | k > HighestBit(x)
        ensures !Bit(x, k)
      {
        assert !Bit(x / 2, k - 1);
      }
    }
  }

  lemma {:induction false} ShrZero(n: nat)
    ensures Shr(0, n) == 0
  {
    if n > 0 {
      ShrZero(n - 1);
    }
  }

  /** One step of the binary search for the lowest set bit. */
  lemma {:induction false} LowestBitSplit(x: nat, n: nat)
    requires x > 0
    ensures x % Pow2(n) != 0 ==> LowestBit(x) < n
    ensures x % Pow2(n) == 0 ==> x / Pow2(n) > 0 && LowestBit(x) == n + LowestBit(x / Pow2(n))
  {
    if n > 0 {
      HalveDiv(x, Pow2(n - 1));
      if x % 2 == 0 {
        LowestBitSplit(x / 2, n - 1);
      }
    }
  }

  /** `zip_bitrev`: the 32 bits of a word in the opposite order. */
  method ZipBitrev(a: nat) returns (r: nat)
    requires a < TWO32
    ensures r < TWO32
    ensures forall k: nat | k < 32 :: Bit(r, k) == Bit(a, 31 - k)
  {
    var b := a;
    r := 0;
    for i := 0 to 32
      invariant b == Shr(a, i)
      invariant r < Pow2(i)
      invariant forall k: nat | k < i :: Bit(r, k) == Bit(a, i - 1 - k)
    {
      Pow2Monotone(i + 1, 32);
      Pow2Words();
      ghost var r0 := r;
      r := PushBit(r, b % 2);
      ShrAdd(a, i, 1);
      b := b / 2;
      forall k: nat | k < i + 1
        ensures Bit(r, k) == Bit(a, i - k)
      {
        if k > 0 {
          assert Bit(r, k) == Bit(r0, k - 1);
        }
      }
    }
    Pow2Words();
  }

  /** `(r << 1) | bit` */
  function PushBit(r: nat, bit: nat): (s: nat)
    requires 2 * r < TWO32 && bit < 2
    ensures s / 2 == r && s % 2 == bit
  {
    assert Pow2(1) == 2;
    OrIsSum(r, 1, bit);
    assert Shl(r, 1, TWO32) == r * Pow2(1);
    Or(Shl(r, 1, TWO32), bit)
  }

  /** The lowest bit of the reversed word mirrors the highest bit of the word. */
  lemma ReversedLowestBit(a: nat, r: nat)
    requires 0 < a < TWO32 && r < TWO32
    requires forall k: nat | k < 32 :: Bit(r, k) == Bit(a, 31 - k)
    ensures r > 0 && HighestBit(a) < 32 && LowestBit(r) == 31 - HighestBit(a)
  {
    Pow2Words();
    HighestBitIsHighest(a);
    HighestBitInWord(a, 32);
    var h := HighestBit(a);
    assert Bit(r, 31 - h);
    ShrZero(31 - h);
    LowestBitIsLowest(r);
    var t := LowestBit(r);
    assert t <= 31 - h;
    assert Bit(r, t) == Bit(a, 31 - t);
  }

  lemma HighestBitInWord(v: nat, n: nat)
    requires 0 < v < Pow2(n)
    ensures HighestBit(v) < n
  {
    HighestBitIsHighest(v);
    if n <= HighestBit(v) {
      Pow2Monotone(n, HighestBit(v));
    }
  }

  /** What `cltz` counts: the leading zeros of a nonzero word, and 63 for zero. */
  ghost function LeadingZeros(v: nat): int {
    if v == 0 then 63 else 63 - HighestBit(v)
  }

  /** The count normalises: shifting by it moves the highest bit to the top of the word. */
  lemma LeadingZerosNormalise(v: nat)
    requires 0 < v < TWO64
    ensures 0 <= LeadingZeros(v) <= 63
    ensures TWO64 / 2 <= v * Pow2(LeadingZeros(v)) < TWO64
  {
    Pow2Words();
    HighestBitIsHighest(v);
    HighestBitInWord(v, 64);
    var h := HighestBit(v);
    Pow2Add(h, 63 - h);
    ScaledBounds(Pow2(h), v, Pow2(63 - h));
  }

  lemma ScaledBounds(lo: nat, v: nat, p: nat)
    requires lo <= v < 2 * lo
    requires p > 0
    ensures lo * p <= v * p < 2 * (lo * p)
  {
    MulMonotone(lo, v, p);
    MulMonotone(v, 2 * lo, p);
    assert 2 * lo * p == 2 * (lo * p);
  }

  lemma {:induction false} HighestBitOfUpperHalf(v: nat)
    requires TWO32 <= v
    ensures v / TWO32 > 0 && HighestBit(v) == 32 + HighestBit(v / TWO32)
  {
    Pow2Words();
    HighestBitShift(v, 32);
  }

  lemma {:induction false} HighestBitShift(v: nat, n: nat)
    requires Pow2(n) <= v
    ensures v / Pow2(n) > 0 && HighestBit(v) == n + HighestBit(v / Pow2(n))
  {
    if n > 0 {
      HighestBitShift(v / 2, n - 1);
      HalveDiv(v, Pow2(n - 1));
    }
  }

  /** `cltz`, in its C form: a binary search on the bit-reversed upper or lower half. */
  method Cltz(v: nat) returns (cnt: nat)
    requires v < TWO64
    ensures cnt == LeadingZeros(v)
  {
    cnt := 0;
    var hv := v / TWO32;
    if hv == 0 {
      cnt := cnt + 32;
      hv := v % TWO32;
    }
    ghost var half := hv;
    hv := ZipBitrev(hv);
    SearchBegins(v, half, hv, cnt);
    cnt := LowBitSearch(hv, cnt, LeadingZeros(v));
  }

  /** The binary search that ends `cltz`. */
  method LowBitSearch(word: nat, start: nat, ghost goal: int) returns (cnt: nat)
    requires Searching(word, 32, start, goal)
    ensures cnt == goal
  {
    var hv := word;
    cnt := start;
    SearchStep(hv, 16, 0x1_0000, cnt, goal);
    if hv % 0x1_0000 == 0 {
      cnt := cnt + 16;
      hv := hv / 0x1_0000;
    }
    SearchStep(hv, 8, 0x100, cnt, goal);
    if hv % 0x100 == 0 {
      cnt := cnt + 8;
      hv := hv / 0x100;
    }
    SearchStep(hv, 4, 0x10, cnt, goal);
    if hv % 0x10 == 0 {
      cnt := cnt + 4;
      hv := hv / 0x10;
    }
    SearchStep(hv, 2, 4, cnt, goal);
    if hv % 4 == 0 {
      cnt := cnt + 2;
      hv := hv / 4;
    }
    SearchStep(hv, 1, 2, cnt, goal);
    if hv % 2 == 0 {
      cnt := cnt + 1;
    }
  }

  /**
   * With the search down to the low `n` bits of `x`, the count so far and the lowest set bit (the
   * last position, when none is set) make up the answer.
   */
  ghost predicate Searching(x: nat, n: nat, cnt: nat, goal: int) {
    var target := if x == 0 then n - 1 else LowestBit(x);
    target < n && cnt + target == goal
  }

  function WindowSize(n: nat): nat {
    match n case 16 => 0x1_0000 case 8 => 0x100 case 4 => 16 case 2 => 4 case 1 => 2 case _ => Pow2(n)
  }

  /** Testing the lower half of a window halves it. */
  lemma SearchStep(x: nat, n: nat, w: nat, cnt: nat, goal: int)
    requires w == WindowSize(n)
    requires Searching(x, 2 * n, cnt, goal)
    ensures x % w == 0 ==> Searching(x / w, n, cnt + n, goal)
    ensures x % w != 0 ==> Searching(x, n, cnt, goal)
  {
    assert w == Pow2(n) by {
      Pow2Words();
    }
    if x > 0 {
      LowestBitSplit(x, n);
    }
  }

  lemma SearchBegins(v: nat, half: nat, rev: nat, cnt: nat)
    requires v < TWO64 && rev < TWO32
    requires (half, cnt) == if v / TWO32 == 0 then (v % TWO32, 32) else (v / TWO32, 0)
    requires forall k: nat | k < 32 :: Bit(rev, k) == Bit(half, 31 - k)
    ensures Searching(rev, 32, cnt, LeadingZeros(v))
  {
    if half == 0 {
      ReversedZero(rev);
    } else {
      ReversedLowestBit(half, rev);
      if v >= TWO32 {
        HighestBitOfUpperHalf(v);
      }
    }
  }

  lemma ReversedZero(r: nat)
    requires r < TWO32
    requires forall k: nat | k < 32 :: Bit(r, k) == Bit(0, 31 - k)
    ensures r == 0
  {
    if r > 0 {
      Pow2Words();
      HighestBitIsHighest(r);
      HighestBitInWord(r, 32);
      ShrZero(31 - HighestBit(r));
    }
  }

  // ----- unsigned division

  lemma {:induction false} HighestBitMonotone(x: nat, y: nat)
    requires 0 < x <= y
    ensures HighestBit(x) <= HighestBit(y)
  {
    if x > 1 {
      HighestBitMonotone(x / 2, y / 2);
    }
  }

  /** Scaling dividend and divisor alike leaves the quotient. */
  lemma ScaledQuotient(a: nat, b: nat, p: nat, q: nat, r: nat)
    requires b > 0 && p > 0
    requires a * p == q * (b * p) + r && r < b * p
    ensures a / b == q
  {
    var d := a - q * b;
    assert d * p == r by {
      assert d * p == a * p - q * b * p;
      assert q * b * p == q * (b * p);
    }
    if d < 0 {
      MulMonotone(d, -1, p);
    }
    if d >= b {
      MulMonotone(b, d, p);
    }
    DivModUnique(a, b, q, d);
  }

  /** When the low word of the divisor is clear, the low word of the dividend is irrelevant. */
  lemma UpperWordQuotient(a: nat, b: nat)
    requires b > 0 && b % TWO32 == 0
    ensures b / TWO32 > 0 && a / b == (a / TWO32) / (b / TWO32)
  {
    var ib := b / TWO32;
    var q, r := (a / TWO32) / ib, (a / TWO32) % ib;
    assert a / TWO32 == q * ib + r;
    assert q * b == (q * ib) * TWO32;
    assert r * TWO32 + a % TWO32 < b;
    DivModUnique(a, b, q, r * TWO32 + a % TWO32);
  }

  /**
   * What the shift-subtract loop keeps with `k` rounds left, for the scaled divisor `d`: the mask
   * and divisor are exact shifts, and quotient and remainder so far make up the dividend.
   */
  ghost predicate Dividing(total: nat, d: nat, k: nat, q: nat, a: nat, b: nat, m: nat, r: nat) {
    && m == Pow2(k) / 2 && b == d * Pow2(k) / 2 && r == q * Pow2(k)
    && total == q * (d * Pow2(k)) + a && a < d * Pow2(k)
  }

  /** One round of the shift-subtract loop. */
  lemma DivisionRound(total: nat, d: nat, k: nat, q: nat, a: nat, b: nat, m: nat, r: nat)
    requires k > 0 && Dividing(total, d, k, q, a, b, m, r)
    ensures a >= b ==> Dividing(total, d, k - 1, 2 * q + 1, a - b, b / 2, m / 2, Or(r, m))
    ensures a < b ==> Dividing(total, d, k - 1, 2 * q, a, b / 2, m / 2, r)
  {
    var p := Pow2(k - 1);
    var e := d * p;
    OrIsSum(q, k, m);
    MulAssoc(2, d, p);
    assert d * Pow2(k) == 2 * e by { assert d * (2 * p) == 2 * d * p; }
    RoundArithmetic(q, p);
    RoundArithmetic(q, e);
  }

  lemma RoundArithmetic(q: nat, p: nat)
    ensures q * (2 * p) == 2 * q * p
    ensures (2 * q + 1) * p == q * (2 * p) + p
  {
  }

  lemma DivisionBegins(total: nat, d: nat, n: nat, b: nat, m: nat)
    requires m == Pow2(n) && d * Pow2(n + 1) == 2 * b && total < 2 * b
    ensures Dividing(total, d, n + 1, 0, total, b, m, 0)
  {
  }

  lemma DivisionEnds(dividend: nat, divisor: nat, la: nat, r: nat)
    requires divisor > 0
    requires exists q: nat, a: nat, b: nat :: Dividing(dividend * Pow2(la), divisor * Pow2(la), 0, q, a, b, 0, r)
    ensures r == dividend / divisor
  {
    var q: nat, a: nat, b: nat :| Dividing(dividend * Pow2(la), divisor * Pow2(la), 0, q, a, b, 0, r);
    ScaledQuotient(dividend, divisor, Pow2(la), q, a);
  }

  /** The shifts of `__udivdi3` lose no bits, and set up the loop. */
  lemma DivisionShifts(a: nat, b: nat)
    requires 0 < b <= a < TWO64
    ensures var (la, lb) := (LeadingZeros(a), LeadingZeros(b));
            && 0 <= la <= lb < 64
            && Shl(a, la, TWO64) == a * Pow2(la) && Shl(b, la, TWO64) == b * Pow2(la)
            && Dividing(a * Pow2(la), b * Pow2(la), lb - la + 1, 0,
                        Shl(a, la, TWO64), Shl(b, lb, TWO64), Shl(1, lb - la, TWO64), 0)
  {
    LeadingZerosNormalise(a);
    LeadingZerosNormalise(b);
    HighestBitMonotone(b, a);
    NormalisedShifts(a, b, LeadingZeros(a), LeadingZeros(b));
  }

  lemma NormalisedShifts(a: nat, b: nat, la: nat, lb: nat)
    requires la <= lb < 64 && a * Pow2(la) < TWO64 && TWO64 / 2 <= b * Pow2(lb) < TWO64
    ensures Shl(a, la, TWO64) == a * Pow2(la) && Shl(b, la, TWO64) == b * Pow2(la)
    ensures Dividing(a * Pow2(la), b * Pow2(la), lb - la + 1, 0,
                     Shl(a, la, TWO64), Shl(b, lb, TWO64), Shl(1, lb - la, TWO64), 0)
  {
    ShlExact(a, la, TWO64);
    ShiftSplit(b, la, lb);
    Pow2InWord(lb - la);
    DivisionBegins(a * Pow2(la), b * Pow2(la), lb - la, b * Pow2(lb), Pow2(lb - la));
  }

  lemma ScalingKeepsQuotient(a: nat, b: nat, p: nat)
    requires b > 0 && p > 0
    ensures b * p > 0 && (a * p) / (b * p) == a / b
  {
    var q, r := a / b, a % b;
    MulMonotone(0, b, p);
    MulMonotone(r, b, p);
    assert a * p == q * b * p + r * p;
    assert q * b * p == q * (b * p);
    DivModUnique(a * p, b * p, q, r * p);
  }

  /** The division by the upper words alone, when the shifted divisor's lower word is clear. */
  lemma WordDivision(a: nat, b: nat, la: nat)
    requires b > 0 && b * Pow2(la) % TWO32 == 0
    ensures b * Pow2(la) / TWO32 > 0
    ensures a * Pow2(la) / TWO32 / (b * Pow2(la) / TWO32) == a / b
  {
    ScalingKeepsQuotient(a, b, Pow2(la));
    UpperWordQuotient(a * Pow2(la), b * Pow2(la));
  }

  lemma MaskVanishesLast(k: nat)
    ensures Pow2(k) / 2 == 0 ==> k == 0
  {
    if k > 0 {
      assert Pow2(k) == 2 * Pow2(k - 1);
    }
  }

  /** The loop that ends `__udivdi3`, on the normalised divisor and the mask of its top bit. */
  method ShiftSubtract(dividend: nat, divisor: nat, top: nat, ghost total: nat, ghost d: nat, ghost rounds: nat)
    returns (r: nat)
    requires Dividing(total, d, rounds, 0, dividend, divisor, top, 0)
    ensures exists q: nat, rest: nat, b: nat :: Dividing(total, d, 0, q, rest, b, 0, r)
  {
    var a, b, m := dividend, divisor, top;
    ghost var k: nat, q: nat := rounds, 0;
    r := 0;
    while m > 0
      invariant Dividing(total, d, k, q, a, b, m, r)
      decreases k
    {
      DivisionRound(total, d, k, q, a, b, m, r);
      if a >= b {
        r := Or(r, m);
        a := a - b;
        q := 2 * q + 1;
      } else {
        q := 2 * q;
      }
      m := m / 2;
      b := b / 2;
      k := k - 1;
    }
    MaskVanishesLast(k);
    assert Dividing(total, d, 0, q, a, b, 0, r);
  }

  /** `__udivdi3`. Dividing by zero is undefined in C; every other quotient is exact. */
  method Udivdi3(dividend: nat, divisor: nat) returns (r: nat)
    requires dividend < TWO64 && 0 < divisor < TWO64
    ensures r == dividend / divisor
  {
    var a, b := dividend, divisor;
    if a < b {
      DivModUnique(a, b, 0, a);
      return 0;
    }
    if b / TWO32 == 0 && a / TWO32 == 0 {
      var ia, ib := a % TWO32, b % TWO32;
      assert ia == a && ib == b;
      return ia / ib;
    }
    var la := Cltz(a);
    var lb := Cltz(b);
    DivisionShifts(dividend, divisor);
    a := Shl(a, la, TWO64);
    if lb - la < 32 && Shl(b, la, TWO64) % TWO32 == 0 {
      WordDivision(dividend, divisor, la);
      b := Shl(b, la, TWO64);
      r := a / TWO32 / (b / TWO32);
    } else {
      b := Shl(b, lb, TWO64);
      r := ShiftSubtract(a, b, Shl(1, lb - la, TWO64), dividend * Pow2(la), divisor * Pow2(la), lb - la + 1);
      DivisionEnds(dividend, divisor, la, r);
    }
  }

  lemma Pow2InWord(n: nat)
    requires n < 64
    ensures Shl(1, n, TWO64) == Pow2(n)
  {
    Pow2Words();
    Pow2Monotone(n, 63);
    ShlExact(1, n, TWO64);
  }

  /** The divisor shifted by `lb` is the divisor shifted by `la`, shifted the rest of the way. */
  lemma ShiftSplit(b: nat, la: nat, lb: nat)
    requires la <= lb && b * Pow2(lb) < TWO64
    ensures Shl(b, lb, TWO64) == b * Pow2(lb) && Shl(b, la, TWO64) == b * Pow2(la)
    ensures b * Pow2(la) * Pow2(lb - la + 1) == 2 * (b * Pow2(lb))
  {
    var p, x := Pow2(la), Pow2(lb - la);
    Pow2Add(la, lb - la);
    MulAssoc(b, p, x);
    MulMonotone(1, x, b * p);
    assert x * (b * p) == b * p * x;
    ShlExact(b, lb, TWO64);
    ShlExact(b, la, TWO64);
    assert b * p * (2 * x) == 2 * (b * p * x) by {
      RoundArithmetic(b * p, x);
      MulAssoc(2, b * p, x);
    }
  }

  lemma MulAssoc(a: nat, b: nat, c: nat)
    ensures a * b * c == a * (b * c)
  {
  }

  // ----- signed division and the remainder

  /** A word read as a two's complement number. */
  function Signed(w: nat): int
    requires w < TWO64
  {
    if w < TWO64 / 2 then w else w - TWO64
  }

  /** The word that holds an integer. */
  function Unsigned(v: int): (w: nat)
    ensures w < TWO64
  {
    v % TWO64
  }

  /** Division as C defines it, rounding towards zero. */
  function Truncated(a: int, b: int): int
    requires b != 0
  {
    var q := Magnitude(a) / Magnitude(b);
    if (a < 0) == (b < 0) then q else -q
  }

  function Magnitude(a: int): (m: nat) {
    if a < 0 then -a else a
  }

  /** What is left over is smaller than the divisor in size, and has the dividend's sign unless it is nothing. */
  predicate Divides(a: int, b: int, q: int, rem: int) {
    && a == q * b + rem
    && (if b < 0 then b < rem < -b else -b < rem < b)
    && (rem == 0 || (rem < 0) == (a < 0))
  }

  lemma TruncatedDivides(a: int, b: int)
    requires b != 0
    ensures Divides(a, b, Truncated(a, b), a - Truncated(a, b) * b)
  {
    var m, n := Magnitude(a), Magnitude(b);
    var q, r := m / n, m % n;
    assert m == n * q + r;
    SignsOfProduct(q, b, n);
  }

  lemma SignsOfProduct(q: int, b: int, n: nat)
    requires n == Magnitude(b)
    ensures n * q == (if b < 0 then -(q * b) else q * b) && (-q) * b == -(q * b)
  {
  }

  /** There is only one such quotient. */
  lemma DividesOnce(a: int, b: int, q: int, r: int, q': int, r': int)
    requires b != 0 && Divides(a, b, q, r) && Divides(a, b, q', r')
    ensures q == q' && r == r'
  {
    assert (q - q') * b == q * b - q' * b == r' - r;
    SmallMultiple(if b < 0 then q' - q else q - q', if b < 0 then -b else b);
    if b < 0 {
      assert (q' - q) * (-b) == (q - q') * b;
    }
  }

  const LONG_MIN := -0x8000_0000_0000_0000

  /** `-v` in a long. */
  function Negate(v: int): (n: int)
    requires LONG_MIN <= v < -LONG_MIN
    ensures n == if v == LONG_MIN then LONG_MIN else -v
  {
    Signed(Unsigned(-v))
  }

  /**
   * `__divdi3`: negation wraps, so `-LONG_MIN` is `LONG_MIN`. The quotient is right exactly when
   * it fits in a word; the one that does not comes back as `LONG_MIN`.
   */
  method Divdi3(dividend: int, divisor: int) returns (r: int)
    requires LONG_MIN <= dividend < -LONG_MIN && LONG_MIN <= divisor < -LONG_MIN && divisor != 0
    ensures LONG_MIN <= r < -LONG_MIN
    ensures r == Truncated(dividend, divisor) <==> !(dividend == LONG_MIN && divisor == -1)
    ensures dividend == LONG_MIN && divisor == -1 ==> r == LONG_MIN
    ensures !(dividend == LONG_MIN && divisor == -1) ==> Divides(dividend, divisor, r, dividend - r * divisor)
  {
    TruncatedDivides(dividend, divisor);
    var a, s := MakePositive(dividend, false);
    var b;
    b, s := MakePositive(divisor, s);
    var q := Udivdi3(Unsigned(a), Unsigned(b));
    SignedQuotient(dividend, divisor, q);
    r := Signed(q);
    if s {
      r := Negate(r);
    }
    SignedResult(dividend, divisor, q, r);
  }

  /** `if (a < 0) { s ^= 1; a = -a; }`, with the long taken for unsigned afterwards. */
  method MakePositive(v: int, s: bool) returns (a: int, t: bool)
    requires LONG_MIN <= v < -LONG_MIN
    ensures LONG_MIN <= a < -LONG_MIN && Unsigned(a) == Magnitude(v) < TWO64 && t == (s != (v < 0))
  {
    a, t := v, s;
    if a < 0 {
      a, t := Negate(a), !s;
    }
  }

  /** Giving the quotient of the magnitudes its sign: wrong only for the one that does not fit. */
  lemma SignedResult(a: int, b: int, q: nat, r: int)
    requires LONG_MIN <= a < -LONG_MIN && LONG_MIN <= b < -LONG_MIN && b != 0
    requires q == Magnitude(a) / Magnitude(b) && q < TWO64
    requires r == if (a < 0) == (b < 0) then Signed(q) else Negate(Signed(q))
    ensures LONG_MIN <= r < -LONG_MIN
    ensures r == Truncated(a, b) <==> !(a == LONG_MIN && b == -1)
    ensures a == LONG_MIN && b == -1 ==> r == LONG_MIN
  {
    SignedQuotient(a, b, q);
    SignedResultFits(a, b, q, Truncated(a, b), r);
  }

  lemma SignedResultFits(a: int, b: int, q: nat, t: int, r: int)
    requires LONG_MIN <= a < -LONG_MIN && LONG_MIN <= b < -LONG_MIN && b != 0
    requires q <= Magnitude(a) && (Magnitude(b) > 1 && a != 0 ==> q < Magnitude(a))
    requires Magnitude(b) == 1 ==> q == Magnitude(a)
    requires t == if (a < 0) == (b < 0) then q as int else 0 - q
    requires r == if (a < 0) == (b < 0) then Signed(q) else Negate(Signed(q))
    ensures LONG_MIN <= r < -LONG_MIN
    ensures r == t <==> !(a == LONG_MIN && b == -1)
    ensures a == LONG_MIN && b == -1 ==> r == LONG_MIN
  {
  }

  lemma SignedQuotient(a: int, b: int, q: nat)
    requires b != 0 && q == Magnitude(a) / Magnitude(b)
    ensures q <= Magnitude(a)
    ensures Magnitude(b) > 1 && a != 0 ==> q < Magnitude(a)
    ensures Magnitude(b) == 1 ==> q == Magnitude(a)
    ensures (a < 0) == (b < 0) ==> Truncated(a, b) == q
    ensures (a < 0) != (b < 0) ==> Truncated(a, b) == 0 - q
  {
    var m := Magnitude(b);
    if m > 1 {
      MulMonotone(1, m, q);
    }
    assert q * m == m * q;
  }

  /** `__umoddi3`: the quotient is multiplied back in 64 bits and subtracted in 64 bits. */
  method Umoddi3(a: nat, b: nat) returns (r: nat)
    requires a < TWO64 && 0 < b < TWO64
    ensures r == a % b
  {
    r := Udivdi3(a, b);
    assert a == r * b + a % b;
    r := Unsigned(r * b);
    r := Unsigned(a - r);
  }
}
