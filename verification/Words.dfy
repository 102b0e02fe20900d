/** Unsigned machine words as naturals: powers of two, single bits, shifts and bitwise OR. */
module Words {

  const TWO16 := 0x1_0000
  const TWO32 := 0x1_0000_0000
  const TWO64 := 0x1_0000_0000_0000_0000

  function Pow2(n: nat): (p: nat)
    ensures p >= 1
  {
    if n == 0 then 1 else 2 * Pow2(n - 1)
  }

  /** `x >> n` */
  function Shr(x: nat, n: nat): nat {
    if n == 0 then x else Shr(x / 2, n - 1)
  }

  /** Bit `k` of `x`. */
  predicate Bit(x: nat, k: nat) {
    Shr(x, k) % 2 == 1
  }

  /** `x | y` */
  function Or(x: nat, y: nat): nat {
    if x == 0 && y == 0 then 0
    else 2 * Or(x / 2, y / 2) + (if x % 2 == 1 || y % 2 == 1 then 1 else 0)
  }

  /** `(x << n)` in a word of `width` values. */
  function Shl(x: nat, n: nat, width: nat): nat
    requires width > 0
  {
    (x * Pow2(n)) % width
  }

  /** A shift that loses no bit. */
  lemma ShlExact(x: nat, n: nat, width: nat)
    requires x * Pow2(n) < width
    ensures Shl(x, n, width) == x * Pow2(n)
  {
    DivModUnique(x * Pow2(n), width, 0, x * Pow2(n));
  }

  lemma {:induction false} Pow2Add(m: nat, n: nat)
    ensures Pow2(m + n) == Pow2(m) * Pow2(n)
  {
    if m == 0 {
    } else {
      Pow2Add(m - 1, n);
      assert 2 * Pow2(m - 1) * Pow2(n) == 2 * (Pow2(m - 1) * Pow2(n));
    }
  }

  lemma Pow2Words()
    ensures Pow2(1) == 2 && Pow2(2) == 4 && Pow2(4) == 16 && Pow2(8) == 0x100
    ensures Pow2(16) == TWO16 && Pow2(32) == TWO32 && Pow2(64) == TWO64
    ensures Pow2(31) == 0x8000_0000 && Pow2(63) == 0x8000_0000_0000_0000
  {
    assert Pow2(4) == 16 by { assert Pow2(2) == 4; assert Pow2(3) == 8; }
    Pow2Add(4, 4);
    Pow2Add(8, 8);
    Pow2Add(16, 16);
    Pow2Add(32, 32);
  }

  lemma {:induction false} Pow2Monotone(m: nat, n: nat)
    requires m <= n
    ensures Pow2(m) <= Pow2(n)
  {
    if m < n {
      Pow2Monotone(m, n - 1);
    }
  }

  lemma {:induction false} ShrAdd(x: nat, m: nat, n: nat)
    ensures Shr(x, m + n) == Shr(Shr(x, m), n)
  {
    if m == 0 {
    } else {
      ShrAdd(x / 2, m - 1, n);
    }
  }

  /** Dividing by `2p` is halving and then dividing by `p`. */
  lemma HalveDiv(x: nat, p: nat)
    requires p > 0
    ensures x / (2 * p) == x / 2 / p
    ensures x % (2 * p) == 2 * (x / 2 % p) + x % 2
  {
    var q := x / 2 / p;
    assert q * (2 * p) == 2 * (q * p);
    DivModUnique(x, 2 * p, q, 2 * (x / 2 % p) + x % 2);
  }

  /** A right shift is a division by a power of two. */
  lemma {:induction false} ShrIsDiv(x: nat, n: nat)
    ensures Shr(x, n) == x / Pow2(n)
  {
    if n > 0 {
      ShrIsDiv(x / 2, n - 1);
      HalveDiv(x, Pow2(n - 1));
    }
  }

  lemma DivModUnique(x: nat, d: nat, q: nat, r: nat)
    requires d > 0 && x == q * d + r && r < d
    ensures x / d == q && x % d == r
  {
    var q' := x / d;
    var k := q - q';
    assert k * d == q * d - q' * d;
    assert k * d == x % d - r;
    SmallMultiple(k, d);
  }

  lemma MulMonotone(a: int, b: int, p: nat)
    requires a <= b
    ensures a * p <= b * p
    ensures a < b && p > 0 ==> a * p < b * p
  {
    if a < b && p > 0 {
      SmallMultiple(b - a, p);
    }
    assert (b - a) * p == b * p - a * p;
  }

  lemma SmallMultiple(k: int, d: int)
    requires d > 0
    ensures k >= 1 ==> k * d >= d
    ensures k <= -1 ==> k * d <= -d
  {
    assert k * d == (k - 1) * d + d;
    assert k * d == (k + 1) * d - d;
  }

  /** `|` of a value whose low `n` bits are clear and one that has only those bits is their sum. */
  lemma {:induction false} OrIsSum(x: nat, n: nat, y: nat)
    requires y < Pow2(n)
    ensures Or(x * Pow2(n), y) == x * Pow2(n) + y
  {
    if n == 0 {
      OrZero(x);
    } else {
      var p := Pow2(n - 1);
      assert x * Pow2(n) == 2 * (x * p);
      OrIsSum(x, n - 1, y / 2);
    }
  }

  lemma {:induction false} OrZero(x: nat)
    ensures Or(x, 0) == x
  {
    if x > 0 {
      OrZero(x / 2);
    }
  }

  /** `x ^ y` */
  function Xor(x: nat, y: nat): nat {
    if x == 0 && y == 0 then 0
    else 2 * Xor(x / 2, y / 2) + (if x % 2 != y % 2 then 1 else 0)
  }

  lemma {:induction false} BitOfXor(x: nat, y: nat, k: nat)
    ensures Bit(Xor(x, y), k) == (Bit(x, k) != Bit(y, k))
    decreases k
  {
    var h := Xor(x / 2, y / 2);
    assert Xor(x, y) == 2 * h + if x % 2 != y % 2 then 1 else 0;
    BitOfDoubled(h, Xor(x, y) - 2 * h, k);
    if k > 0 {
      BitOfXor(x / 2, y / 2, k - 1);
    }
  }

  lemma BitOfDoubled(x: nat, c: nat, k: nat)
    requires c < 2
    ensures Bit(2 * x + c, k) == if k == 0 then c == 1 else Bit(x, k - 1)
  {
    assert (2 * x + c) / 2 == x;
  }

  /** Truncation to `n` bits keeps them. */
  lemma {:induction false} BitOfLow(x: nat, n: nat, k: nat)
    ensures Bit(x % Pow2(n), k) == (k < n && Bit(x, k))
    decreases k, n
  {
    if n == 0 {
      ZeroBits(k);
    } else {
      HalveDiv(x, Pow2(n - 1));
      var low := x / 2 % Pow2(n - 1);
      BitOfDoubled(low, x % 2, k);
      if k > 0 {
        BitOfLow(x / 2, n - 1, k - 1);
      }
    }
  }

  lemma {:induction false} ZeroBits(k: nat)
    ensures !Bit(0, k) && Shr(0, k) == 0
  {
    if k > 0 {
      ZeroBits(k - 1);
    }
  }

  lemma {:induction false} BitOfShifted(x: nat, n: nat, k: nat)
    ensures Bit(x * Pow2(n), k) == (k >= n && Bit(x, k - n))
    decreases n
  {
    if n > 0 {
      var half := x * Pow2(n - 1);
      assert x * Pow2(n) == 2 * half;
      BitOfDoubled(half, 0, k);
      if k > 0 {
        BitOfShifted(x, n - 1, k - 1);
      }
    }
  }

  /** A word is determined by its bits. */
  lemma {:induction false} BitsDetermine(x: nat, y: nat, n: nat)
    requires x < Pow2(n) && y < Pow2(n)
    requires forall k: nat | k < n :: Bit(x, k) == Bit(y, k)
    ensures x == y
    decreases n
  {
    if n > 0 {
      assert Bit(x, 0) == Bit(y, 0);
      forall k: nat | k < n - 1
        ensures Bit(x / 2, k) == Bit(y / 2, k)
      {
        assert Bit(x, k + 1) == Bit(y, k + 1);
      }
      BitsDetermine(x / 2, y / 2, n - 1);
    }
  }

  lemma {:induction false} BitOfOr(x: nat, y: nat, k: nat)
    ensures Bit(Or(x, y), k) == (Bit(x, k) || Bit(y, k))
    decreases k
  {
    var h := Or(x / 2, y / 2);
    assert Or(x, y) == 2 * h + if x % 2 == 1 || y % 2 == 1 then 1 else 0;
    BitOfDoubled(h, Or(x, y) - 2 * h, k);
    if k > 0 {
      BitOfOr(x / 2, y / 2, k - 1);
    }
  }

  /** `2^n - 1` is `n` ones. */
  lemma {:induction false} BitOfOnes(n: nat, k: nat)
    ensures Bit(Pow2(n) - 1, k) == (k < n)
    decreases k, n
  {
    if n == 0 {
      ZeroBits(k);
    } else {
      BitOfDoubled(Pow2(n - 1) - 1, 1, k);
      if k > 0 {
        BitOfOnes(n - 1, k - 1);
      }
    }
  }

  /** A bit of a right shift. */
  lemma BitOfShr(x: nat, n: nat, k: nat)
    ensures Bit(Shr(x, n), k) == Bit(x, n + k)
  {
    ShrAdd(x, n, k);
  }

  /** A bit of a left shift within 32 bits. */
  lemma BitOfShl(x: nat, n: nat, k: nat)
    ensures Bit(Shl(x, n, TWO32), k) == (n <= k < 32 && Bit(x, k - n))
  {
    BitOfShifted(x, n, k);
    BitOfLow(x * Pow2(n), 32, k);
    Pow2Words();
  }

  /** `x & y` */
  function And(x: nat, y: nat): nat {
    if x == 0 || y == 0 then 0
    else 2 * And(x / 2, y / 2) + (if x % 2 == 1 && y % 2 == 1 then 1 else 0)
  }

  lemma {:induction false} BitOfAnd(x: nat, y: nat, k: nat)
    ensures Bit(And(x, y), k) == (Bit(x, k) && Bit(y, k))
    decreases k
  {
    if x == 0 || y == 0 {
      ZeroBits(k);
    } else {
      var h := And(x / 2, y / 2);
      BitOfDoubled(h, And(x, y) - 2 * h, k);
      if k > 0 {
        BitOfAnd(x / 2, y / 2, k - 1);
      }
    }
  }

  lemma {:induction false} AndBelow(x: nat, y: nat)
    ensures And(x, y) <= x && And(x, y) <= y
  {
    if x > 0 && y > 0 {
      AndBelow(x / 2, y / 2);
    }
  }

  lemma {:induction false} AndCommutes(x: nat, y: nat)
    ensures And(x, y) == And(y, x)
  {
    if x > 0 && y > 0 {
      AndCommutes(x / 2, y / 2);
    }
  }

  lemma {:induction false} AndOnes(x: nat, n: nat)
    requires x < Pow2(n)
    ensures And(x, Pow2(n) - 1) == x
    decreases n
  {
    if n > 0 {
      AndOnes(x / 2, n - 1);
    }
  }

  lemma AndBlank(x: nat)
    requires x < 256
    ensures And(x, 0xff) == x
  {
    Pow2Words();
    AndOnes(x, 8);
  }

  lemma {:induction false} ZeroOr(x: nat)
    ensures Or(0, x) == x
  {
    if x > 0 {
      ZeroOr(x / 2);
    }
  }

  lemma {:induction false} OrBelow(x: nat, y: nat, n: nat)
    requires x < Pow2(n) && y < Pow2(n)
    ensures Or(x, y) < Pow2(n)
    decreases n
  {
    if n > 0 {
      OrBelow(x / 2, y / 2, n - 1);
    }
  }

  /** A bit of a byte with others above it. */
  lemma BitOfJoined(h: nat, l: nat, k: nat)
    requires l < 256
    ensures Bit(h * 256 + l, k) == if k < 8 then Bit(l, k) else Bit(h, k - 8)
  {
    var x := h * 256 + l;
    Pow2Words();
    DivModUnique(x, 256, h, l);
    if k < 8 {
      BitOfLow(x, 8, k);
    } else {
      ShrIsDiv(x, 8);
      BitOfShr(x, 8, k - 8);
    }
  }
}
