/** The shift-and-add reference multiplications of the CPU test: the upper word of a 32x32 product. */
module SoftMultiply {
  import opened Words

  /** `a` doubled `n` times. */
  ghost function Doubled(a: nat, n: nat): nat {
    if n == 0 then a else 2 * Doubled(a, n - 1)
  }

  /** The sum of the partial products for the low `n` bits of `b`. */
  ghost function Partial(a: nat, b: nat, n: nat): nat {
    if n == 0 then 0 else Partial(a, b, n - 1) + if Bit(b, n - 1) then Doubled(a, n - 1) else 0
  }

  lemma {:induction false} DoubledIsShift(a: nat, n: nat)
    ensures Doubled(a, n) == a * Pow2(n)
  {
    if n > 0 {
      DoubledIsShift(a, n - 1);
      var p := Pow2(n - 1);
      assert a * (2 * p) == 2 * (a * p);
    }
  }

  /** The partial products so far and the untouched upper bits of `b` make up the product. */
  lemma {:induction false} PartialAndRest(a: nat, b: nat, n: nat)
    ensures a * b == Partial(a, b, n) + Shr(b, n) * Doubled(a, n)
  {
    if n > 0 {
      PartialAndRest(a, b, n - 1);
      ShrAdd(b, n - 1, 1);
      HalveProduct(Shr(b, n - 1), Doubled(a, n - 1));
    }
  }

  lemma HalveProduct(s: nat, d: nat)
    ensures s * d == s / 2 * (2 * d) + if s % 2 == 1 then d else 0
  {
    var h := s / 2;
    assert s * d == (2 * h + s % 2) * d == 2 * h * d + s % 2 * d;
    assert h * (2 * d) == 2 * h * d;
  }

  lemma PartialIsProduct(a: nat, b: nat)
    requires b < TWO32
    ensures Partial(a, b, 32) == a * b
  {
    PartialAndRest(a, b, 32);
    ShrOfWord(b);
  }

  lemma ShrOfWord(b: nat)
    requires b < TWO32
    ensures Shr(b, 32) == 0
  {
    Pow2Words();
    ShrIsDiv(b, 32);
    DivModUnique(b, Pow2(32), 0, b);
  }

  /** After `n` bits the sum still leaves room: it is below `2^(32 + n)`. */
  lemma {:induction false} PartialBound(a: nat, b: nat, n: nat)
    requires a < TWO32
    ensures Doubled(a, n) <= Doubled(TWO32 - 1, n)
    ensures Partial(a, b, n) <= Doubled(TWO32 - 1, n) - (TWO32 - 1)
  {
    if n > 0 {
      PartialBound(a, b, n - 1);
    }
  }

  lemma PartialFits(a: nat, b: nat, n: nat, room: nat)
    requires a < TWO32 && n <= room
    ensures Partial(a, b, n) < TWO32 * Pow2(room)
  {
    PartialBound(a, b, n);
    DoubledIsShift(TWO32 - 1, n);
    Pow2Monotone(n, room);
  }

  lemma PartialFitsLower(a: nat, b: nat, n: nat)
    requires a < TWO32 && n <= 16
    ensures Partial(a, b, n) < TWO32 * TWO16
  {
    PartialFits(a, b, n, 16);
    Pow2Words();
  }

  lemma PartialFitsUpper(a: nat, b: nat, n: nat)
    requires a < TWO32 && n <= 32
    ensures Partial(a, b, n) < TWO64
  {
    PartialFits(a, b, n, 32);
    Pow2Words();
  }

  lemma {:induction false} DoubledSplits(alo: nat, ahi: nat, n: nat)
    ensures Doubled(ahi * TWO16 + alo, n) == Doubled(ahi, n) * TWO16 + Doubled(alo, n)
  {
    if n > 0 {
      DoubledSplits(alo, ahi, n - 1);
    }
  }

  lemma {:induction false} DoubledAdd(a: nat, m: nat, n: nat)
    ensures Doubled(a, m + n) == Doubled(Doubled(a, m), n)
  {
    if n > 0 {
      DoubledAdd(a, m, n - 1);
    }
  }

  /** A half-word shifted left by less than 16 stays in its word. */
  lemma HalfFits(h: nat, p: nat)
    requires h < TWO16 && 0 < p <= TWO16 / 2
    ensures h * p < TWO16 * p <= TWO32 / 2
  {
    assert TWO16 * p - h * p == (TWO16 - h) * p;
    MulMonotone(1, TWO16 - h, p);
  }

  method ShiftHalf(h: nat, n: nat) returns (w: nat)
    requires h < TWO16 && n < 16
    ensures w == Doubled(h, n) < TWO16 * Pow2(n) <= TWO32 / 2
  {
    DoubledIsShift(h, n);
    Pow2Monotone(n, 15);
    Pow2Words();
    assert Pow2(16) == 2 * Pow2(15);
    MulMonotone(h, TWO16, Pow2(n));
    HalfFits(h, Pow2(n));
    ShlExact(h, n, TWO32);
    w := Shl(h, n, TWO32);
  }

  /** The three half-words of the multiplicand shifted by `n`, as both loops compute them. */
  method ShiftedHalves(alo: nat, ahi: nat, n: nat) returns (sup: nat, shi: nat, slo: nat)
    requires alo < TWO16 && ahi < TWO16 && n < 16
    ensures sup < TWO16 && shi < TWO16 && slo < TWO16
    ensures sup * TWO32 + shi * TWO16 + slo == Doubled(ahi * TWO16 + alo, n)
  {
    slo := ShiftHalf(alo, n);
    shi := ShiftHalf(ahi, n);
    DoubledSplits(alo, ahi, n);
    var carry := slo / TWO16 % TWO16;
    HalfOf(slo, Pow2(n));
    OrOfDoubled(ahi, n, carry);
    shi := Or(shi, carry);
    slo := slo % TWO16;
    HalfOfSum(shi);
    sup := shi / TWO16 % TWO16;
    shi := shi % TWO16;
  }

  /** A half shifted up carries less than it was shifted by. */
  lemma HalfOf(x: nat, p: nat)
    requires x < TWO16 * p && x < TWO32
    ensures x / TWO16 % TWO16 == x / TWO16 < p && x == x / TWO16 * TWO16 + x % TWO16
  {
    assert x / TWO16 < TWO16;
  }

  lemma HalfOfSum(x: nat)
    requires x < TWO32
    ensures x / TWO16 % TWO16 == x / TWO16 < TWO16 && x == x / TWO16 * TWO16 + x % TWO16
  {
  }

  lemma OrOfDoubled(h: nat, n: nat, carry: nat)
    requires carry < Pow2(n)
    ensures Or(Doubled(h, n), carry) == Doubled(h, n) + carry
  {
    DoubledIsShift(h, n);
    OrIsSum(h, n, carry);
  }

  /** `x += y` on an accumulator; the precondition is that it does not wrap. */
  method Accumulate(x: nat, y: nat) returns (z: nat)
    requires x + y < TWO32
    ensures z == x + y
  {
    z := (x + y) % TWO32;
  }

  /** Splits an accumulator into the carry above its lower 16 bits and those bits. */
  method Carry(x: nat) returns (carry: nat, low: nat)
    requires x < TWO32
    ensures carry * TWO16 + low == x && low < TWO16
  {
    carry, low := x / TWO16 % TWO16, x % TWO16;
  }

  /** `soft_mpyuhi`: the accumulators never overflow, and leave the upper word of the product. */
  method SoftMpyUhi(a: nat, b: nat) returns (rhi: nat)
    requires a < TWO32 && b < TWO32
    ensures rhi == a * b / TWO32
  {
    var alo, ahi := a % TWO16, a / TWO16 % TWO16;
    var rlhi: nat, rllo: nat, carry: nat := 0, 0, 0;
    rhi := 0;
    assert ahi * TWO16 + alo == a;
    for i := 0 to 16
      invariant rlhi < TWO16 && rllo < TWO16
      invariant rhi * TWO32 + rlhi * TWO16 + rllo == Partial(a, b, i)
    {
      PartialFitsLower(a, b, i + 1);
      if Bit(b, i) {
        var sup, shi, slo := ShiftedHalves(alo, ahi, i);
        rhi := Accumulate(rhi, sup);
        rlhi := Accumulate(rlhi, shi);
        rllo := Accumulate(rllo, slo);

        carry, rllo := Carry(rllo);
        rlhi := Accumulate(rlhi, carry);

        carry, rlhi := Carry(rlhi);
        rhi := Accumulate(rhi, carry);
      }
    }
    for i := 16 to 32
      invariant rlhi < TWO16 && rllo < TWO16
      invariant rhi * TWO32 + rlhi * TWO16 + rllo == Partial(a, b, i)
    {
      PartialFitsUpper(a, b, i + 1);
      if Bit(b, i) {
        var sup, shi, slo := ShiftedHalves(alo, ahi, i - 16);
        UpperShift(a, i);
        rhi := Accumulate(rhi, sup * TWO16);
        rhi := Accumulate(rhi, shi);
        rlhi := Accumulate(rlhi, slo);

        carry, rlhi := Carry(rlhi);
        rhi := Accumulate(rhi, carry);
      }
    }
    PartialIsProduct(a, b);
    UpperWord(rhi, rlhi * TWO16 + rllo, a * b);
  }

  lemma UpperWord(hi: nat, lo: nat, z: nat)
    requires z == hi * TWO32 + lo && lo < TWO32
    ensures hi == z / TWO32
  {
  }

  lemma UpperShift(a: nat, i: nat)
    requires i >= 16
    ensures Doubled(a, i) == TWO16 * Doubled(a, i - 16)
  {
    DoubledAdd(a, i - 16, 16);
    DoubledIsShift(Doubled(a, i - 16), 16);
    Pow2Words();
  }

  // ----- the signed multiplication

  const INT_MIN := -0x8000_0000

  function Word(v: int): (w: nat)
    ensures w < TWO32
  {
    v % TWO32
  }

  function Int(w: nat): (v: int)
    requires w < TWO32
    ensures INT_MIN <= v < -INT_MIN && Word(v) == w
  {
    if w < TWO32 / 2 then w else w - TWO32
  }

  function Magnitude(v: int): (m: nat) {
    if v < 0 then -v else v
  }

  /** `if (v<0) v = -v;` and the conversion to unsigned: right for the most negative value too. */
  method AbsoluteWord(v: int) returns (w: nat)
    requires INT_MIN <= v < -INT_MIN
    ensures w == Magnitude(v) <= -INT_MIN
  {
    w := Word(if v < 0 then Int(Word(-v)) else v);
  }

  method SignBit(v: int) returns (s: bool)
    requires INT_MIN <= v < -INT_MIN
    ensures s <==> v < 0
  {
    s := Word(v) / (TWO32 / 2) == 1;
  }

  /** `soft_mpyshi`: the floor of the signed product over 2^32, the most negative inputs included. */
  method SoftMpyShi(x: int, y: int) returns (r: int)
    requires INT_MIN <= x < -INT_MIN && INT_MIN <= y < -INT_MIN
    ensures r == x * y / TWO32
  {
    var sx := SignBit(x);
    var sy := SignBit(y);
    var a := AbsoluteWord(x);
    var b := AbsoluteWord(y);
    var p := LowProduct(a, b);
    var hi := SoftMpyUhi(a, b);
    UpperWordFits(a, b, hi);
    r := ApplySign(sx != sy, hi, p);
    SignedProduct(x, y, a * b, r);
  }

  lemma UpperWordFits(a: nat, b: nat, hi: nat)
    requires a <= -INT_MIN && b <= -INT_MIN && hi == a * b / TWO32
    ensures hi <= TWO32 / 4
  {
    MulMonotone(a, -INT_MIN, b);
  }

  /** The lower word of a product. */
  method LowProduct(a: nat, b: nat) returns (p: nat)
    ensures p == a * b % TWO32
  {
    p := a * b % TWO32;
  }

  /** The negation that ends `soft_mpyshi`, whose carry comes from the lower word `p`. */
  function ApplySign(sgn: bool, hi: nat, p: nat): int
    requires hi < TWO32
  {
    var r := if sgn then TWO32 - 1 - hi else hi;
    Int(if sgn && p == 0 then (r + 1) % TWO32 else r)
  }

  /** The upper word of a signed product from the product of the magnitudes. */
  lemma SignedProduct(x: int, y: int, z: nat, r: int)
    requires INT_MIN <= x < -INT_MIN && INT_MIN <= y < -INT_MIN
    requires z == Magnitude(x) * Magnitude(y)
    requires z / TWO32 < TWO32 && r == ApplySign((x < 0) != (y < 0), z / TWO32, z % TWO32)
    ensures r == x * y / TWO32
  {
    SignOfProduct(x, y);
    UpperWordFits(Magnitude(x), Magnitude(y), z / TWO32);
    SignedUpperWord((x < 0) != (y < 0), z, x * y);
  }

  lemma SignOfProduct(x: int, y: int)
    ensures x * y == if (x < 0) == (y < 0) then Magnitude(x) * Magnitude(y) else -(Magnitude(x) * Magnitude(y))
  {
  }

  lemma SignedUpperWord(sgn: bool, z: int, s: int)
    requires 0 <= z && z / TWO32 <= TWO32 / 4 && s == if sgn then -z else z
    ensures ApplySign(sgn, z / TWO32, z % TWO32) == s / TWO32
  {
  }
}
