/** Six-bit codes as printable characters, and numbers as strings of six-bit digits. */
module TtyCodec {
  import opened Words

  /** `charenc`: the character for a six-bit code. */
  function Charenc(v: nat): char
    requires v < 64
  {
    if v < 10 then '0' + v as char
    else if v < 36 then 'A' + (v - 10) as char
    else if v < 62 then 'a' + (v - 36) as char
    else if v == 62 then '@'
    else '%'
  }

  /** What `chardec` gives for a character outside the alphabet. */
  const INVALID := 0x100

  /** `chardec`: the code of a character. */
  function Chardec(b: char): nat {
    if '0' <= b <= '9' then (b - '0') as nat
    else if 'A' <= b <= 'Z' then (b - 'A') as nat + 10
    else if 'a' <= b <= 'z' then (b - 'a') as nat + 36
    else if b == '@' then 62
    else if b == '%' then 63
    else INVALID
  }

  /** The code is a bijection between the 64 values and the 64 characters it uses. */
  lemma CodeIsBijective(v: nat, b: char)
    requires v < 64
    ensures Chardec(Charenc(v)) == v
    ensures Chardec(b) < 64 ==> Charenc(Chardec(b)) == b
    ensures Chardec(b) >= 64 ==> forall u: nat | u < 64 :: Charenc(u) != b
  {
    if Chardec(b) < 36 {
    } else if Chardec(b) < 64 {
    }
  }

  /** Codes as the characters that carry them; anything that is no code becomes a newline. */
  function Text(codes: seq<nat>): string {
    seq(|codes|, k requires 0 <= k < |codes| => if codes[k] < 64 then Charenc(codes[k]) else '\n')
  }

  function Codes(text: string): seq<nat> {
    seq(|text|, k requires 0 <= k < |text| => Chardec(text[k]))
  }

  predicate IsCode(c: nat) {
    c < 64 || c == INVALID
  }

  lemma CodesOfText(codes: seq<nat>)
    requires forall k | 0 <= k < |codes| :: IsCode(codes[k])
    ensures Codes(Text(codes)) == codes
  {
    forall k | 0 <= k < |codes|
      ensures Chardec(Text(codes)[k]) == codes[k]
    {
      assert IsCode(codes[k]);
      if codes[k] < 64 {
        CodeIsBijective(codes[k], '0');
      }
    }
  }

  /** How many numbers `n` digits can write. */
  function Span(n: nat): (s: nat)
    ensures s >= 1
  {
    if n == 0 then 1 else 64 * Span(n - 1)
  }

  /** The low `n` digits of a number, most significant first. */
  function Digits(v: nat, n: nat): (d: seq<nat>)
    ensures |d| == n
    ensures forall k | 0 <= k < n :: d[k] < 64
    decreases n
  {
    if n == 0 then [] else Digits(v / 64, n - 1) + [v % 64]
  }

  /** The number a string of digits writes: each shifts the ones before it up by six bits. */
  function Value(d: seq<nat>): nat
    decreases |d|
  {
    if d == [] then 0 else 64 * Value(d[..|d| - 1]) + d[|d| - 1]
  }

  lemma {:induction false} ValueOfDigits(v: nat, n: nat)
    ensures Value(Digits(v, n)) == v % Span(n)
    decreases n
  {
    if n > 0 {
      ValueOfDigits(v / 64, n - 1);
      assert Digits(v, n)[..n - 1] == Digits(v / 64, n - 1);
      DigitSplits(v, Span(n - 1));
    }
  }

  lemma DigitSplits(v: nat, s: nat)
    requires s >= 1
    ensures v % (64 * s) == 64 * (v / 64 % s) + v % 64
  {
    var q := v / 64 / s;
    assert q * (64 * s) == 64 * (q * s);
    DivModUnique(v, 64 * s, q, 64 * (v / 64 % s) + v % 64);
  }

  lemma SmallValue(v: nat, n: nat)
    requires v < Span(n)
    ensures Value(Digits(v, n)) == v
  {
    ValueOfDigits(v, n);
    DivModUnique(v, Span(n), 0, v);
  }

  /** Digits determine, and are determined by, the number they write. */
  lemma {:induction false} DigitsOfValue(d: seq<nat>)
    requires forall k | 0 <= k < |d| :: d[k] < 64
    ensures Value(d) < Span(|d|) && Digits(Value(d), |d|) == d
    decreases |d|
  {
    if d != [] {
      var n := |d| - 1;
      DigitsOfValue(d[..n]);
      assert d == d[..n] + [d[n]];
    }
  }

  lemma Spans()
    ensures Span(1) == 64 && Span(2) == 0x1000 && Span(3) == 0x4_0000 && Span(4) == 0x100_0000
    ensures Span(5) == 0x4000_0000
  {
    assert Span(2) == 0x1000;
    assert Span(3) == 0x4_0000;
    assert Span(4) == 0x100_0000;
  }

  lemma ValueOfFive(v: nat)
    ensures Value(Digits(v, 5)) == v % 0x4000_0000
  {
    Spans();
    ValueOfDigits(v, 5);
  }

  lemma ValueOfOne(v: nat)
    ensures Value(Digits(v, 1)) == v % 64
  {
    Spans();
    ValueOfDigits(v, 1);
  }

  // ----- digits spelled out

  lemma OneDigit(v: nat)
    ensures Digits(v, 1) == [v % 64]
  {
    assert Digits(v, 1) == [] + [v % 64];
  }

  lemma TwoDigits(v: nat)
    ensures Digits(v, 2) == [v / 0x40 % 64, v % 64]
  {
    OneDigit(v / 64);
  }

  lemma ThreeDigits(v: nat)
    ensures Digits(v, 3) == [v / 0x1000 % 64, v / 0x40 % 64, v % 64]
  {
    TwoDigits(v / 64);
    assert v / 64 / 0x40 == v / 0x1000;
  }

  lemma FourDigits(v: nat)
    ensures Digits(v, 4) == [v / 0x4_0000 % 64, v / 0x1000 % 64, v / 0x40 % 64, v % 64]
  {
    ThreeDigits(v / 64);
    assert v / 64 / 0x40 == v / 0x1000 && v / 64 / 0x1000 == v / 0x4_0000;
  }

  lemma FiveDigits(v: nat)
    ensures Digits(v, 5) == [v / 0x100_0000 % 64, v / 0x4_0000 % 64, v / 0x1000 % 64, v / 0x40 % 64, v % 64]
  {
    FourDigits(v / 64);
    assert v / 64 / 0x40 == v / 0x1000 && v / 64 / 0x1000 == v / 0x4_0000 && v / 64 / 0x4_0000 == v / 0x100_0000;
  }
}
