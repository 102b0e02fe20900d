/**
 * The 36-bit code words of the FPGA end of the debug bus: how they are gathered from six-bit codes,
 * what they are taken for, and how answers are packed into them. Words are cut by bit positions, as
 * the logic does; none of it goes by the host's way of writing numbers.
 */
module TtyWords {
  import opened Words
  import opened TtyCodec
  import opened TtyPeer
  import opened TtyRead
  import Exec = TtyExec

  /** Bits `hi` to `lo` of a word. */
  function Bits(w: nat, hi: nat, lo: nat): nat
    requires lo <= hi
  {
    w / Pow2(lo) % Pow2(hi + 1 - lo)
  }

  lemma Powers()
    ensures Pow2(0) == 1 && Pow2(1) == 2 && Pow2(2) == 4 && Pow2(3) == 8 && Pow2(4) == 16 && Pow2(5) == 32 && Pow2(6) == 64
    ensures Pow2(9) == 0x200 && Pow2(12) == 0x1000 && Pow2(18) == 0x4_0000 && Pow2(24) == 0x100_0000
    ensures Pow2(29) == 0x2000_0000 && Pow2(30) == 0x4000_0000 && Pow2(31) == 0x8000_0000
    ensures Pow2(32) == 0x1_0000_0000 && Pow2(33) == 0x2_0000_0000 && Pow2(34) == 0x4_0000_0000 && Pow2(35) == 0x8_0000_0000
  {
    Pow2Words();
    assert Pow2(3) == 2 * Pow2(2);
    assert Pow2(5) == 2 * Pow2(4);
    assert Pow2(6) == 2 * Pow2(5);
    Pow2Add(6, 3);
    Pow2Add(6, 6);
    Pow2Add(12, 6);
    Pow2Add(18, 6);
    Pow2Add(24, 5);
    Pow2Add(24, 6);
    assert Pow2(33) == 2 * Pow2(32);
    assert Pow2(34) == 2 * Pow2(33);
    assert Pow2(35) == 2 * Pow2(34);
  }

  // ----- commands

  /** How many codes a word takes, by its first one. */
  function CodesIn(hexbits: nat): nat {
    if Bits(hexbits, 5, 4) == 3 then 2
    else if Bits(hexbits, 5, 4) == 2 then 1
    else if Bits(hexbits, 5, 3) == 2 then 2
    else if Bits(hexbits, 5, 3) == 1 then 2 + Bits(hexbits, 2, 1)
    else 6
  }

  lemma LengthIsCodesIn(c: nat)
    requires c < 64
    ensures Length(c) == CodesIn(c)
  {
    Powers();
  }

  /** The register once the codes are shifted in; its other bits are left over from before. */
  ghost predicate Gathers(w: nat, codes: seq<nat>)
    requires |codes| <= 6
  {
    w < 0x10_0000_0000 && forall k | 0 <= k < |codes| :: Bits(w, 35 - 6 * k, 30 - 6 * k) == codes[k]
  }

  /** The address field of a compressed address: 6, 12, 18 or 24 bits below bit 30. */
  function AddressField(w: nat): nat {
    match Bits(w, 32, 31)
    case 0 => Bits(w, 29, 24)
    case 1 => Bits(w, 29, 18)
    case 2 => Bits(w, 29, 12)
    case _ => Bits(w, 29, 6)
  }

  /** The same, as a signed number. */
  function SignedField(w: nat): int {
    AddressField(w) - if Bits(w, 29, 29) == 1 then Pow2(6 * (Bits(w, 32, 31) + 1)) else 0
  }

  /** The fields that commands are told by and made of, named by their bits. */
  datatype Fields = Fields(
    b35_30: nat, b35_34: nat, b35_33: nat, b35_32: nat, b35: nat, b34: nat, b33_31: nat, b32_31: nat, b30: nat,
    b31_0: nat, b29_24: nat, b29_0: nat, address: nat, offset: int)

  function FieldsOf(w: nat): Fields {
    Fields(Bits(w, 35, 30), Bits(w, 35, 34), Bits(w, 35, 33), Bits(w, 35, 32), Bits(w, 35, 35), Bits(w, 34, 34),
           Bits(w, 33, 31), Bits(w, 32, 31), Bits(w, 30, 30), Bits(w, 31, 0), Bits(w, 29, 24), Bits(w, 29, 0),
           AddressField(w), SignedField(w))
  }

  /** What fields come to, unpacked and executed. */
  function CommandOf(f: Fields): Command {
    if f.b35_30 == 0x2e then Nothing
    else if f.b35_33 == 1 && f.b30 == 0 then Goto(f.address)
    else if f.b35_33 == 1 then Shift(f.offset)
    else if f.b35_33 == 2 then Repeat(f.b32_31 * 64 + f.b29_24, f.b30 == 1)
    else if f.b35 == 1 && f.b34 == 0 then Fetch(1 + f.b33_31, f.b30 == 1)
    else if f.b35 == 1 then Fetch(9 + f.b33_31 * 64 + f.b29_24, f.b30 == 1)
    else if f.b35_32 == 0 then Goto(f.b31_0 % WORDS)
    else if f.b35_34 == 1 then Store(f.b32_31 * WORDS + f.b29_0, f.b30 == 1)
    else Renew
  }

  function Meant(w: nat): Command {
    CommandOf(FieldsOf(w))
  }

  /** A word split below its first code. */
  lemma TopBits(w: nat, c: nat, r: nat)
    requires c < 64 && r < WORDS && w == c * WORDS + r
    ensures Bits(w, 35, 30) == c && Bits(w, 35, 35) == c / 32 && Bits(w, 34, 34) == c / 16 % 2
    ensures Bits(w, 35, 34) == c / 16 && Bits(w, 35, 33) == c / 8 && Bits(w, 35, 32) == c / 4
    ensures Bits(w, 33, 31) == c / 2 % 8 && Bits(w, 32, 31) == c / 2 % 4 && Bits(w, 30, 30) == c % 2
    ensures Bits(w, 31, 0) == c % 4 * WORDS + r && Bits(w, 31, 30) == c % 4
  {
    Powers();
    assert w / 0x4000_0000 == c;
    assert w / 0x8000_0000 == c / 2;
    assert w / 0x1_0000_0000 == c / 4;
    assert w / 0x2_0000_0000 == c / 8;
    assert w / 0x4_0000_0000 == c / 16;
    assert w / 0x8_0000_0000 == c / 32;
  }

  lemma LowBits(w: nat, c: nat, r: nat)
    requires c < 64 && r < WORDS && w == c * WORDS + r
    ensures Bits(w, 29, 24) == r / 0x100_0000 && Bits(w, 29, 18) == r / 0x4_0000 && Bits(w, 29, 12) == r / 0x1000
    ensures Bits(w, 29, 6) == r / 0x40 && Bits(w, 29, 0) == r && Bits(w, 29, 29) == r / 0x2000_0000
  {
    Powers();
    assert w / 0x100_0000 == c * 64 + r / 0x100_0000;
    assert w / 0x4_0000 == c * 0x1000 + r / 0x4_0000;
    assert w / 0x1000 == c * 0x4_0000 + r / 0x1000;
    assert w / 0x40 == c * 0x100_0000 + r / 0x40;
    assert w / 0x2000_0000 == c * 2 + r / 0x2000_0000;
  }

  lemma TailBits(w: nat, c: nat, r: nat)
    requires c < 64 && r < WORDS && w == c * WORDS + r
    ensures Bits(w, 23, 18) == r / 0x4_0000 % 64 && Bits(w, 17, 12) == r / 0x1000 % 64
    ensures Bits(w, 11, 6) == r / 0x40 % 64 && Bits(w, 5, 0) == r % 64
  {
    Powers();
    assert w / 0x4_0000 == c * 0x1000 + r / 0x4_0000;
    assert w / 0x1000 == c * 0x4_0000 + r / 0x1000;
    assert w / 0x40 == c * 0x100_0000 + r / 0x40;
  }

  /** Where the field of `n` digits ends. */
  function Below(n: nat): nat
    requires n <= 5
  {
    if n == 0 then WORDS else if n == 1 then 0x100_0000 else if n == 2 then 0x4_0000
    else if n == 3 then 0x1000 else if n == 4 then 0x40 else 1
  }

  lemma BelowNext(r: nat, n: nat)
    requires r < WORDS && 0 < n <= 5
    ensures r / Below(n) == 64 * (r / Below(n - 1)) + r / Below(n) % 64
  {
  }

  lemma GathersFewer(w: nat, codes: seq<nat>, n: nat)
    requires n <= |codes| <= 6 && Gathers(w, codes)
    ensures Gathers(w, codes[..n])
  {
    forall k | 0 <= k < n
      ensures Bits(w, 35 - 6 * k, 30 - 6 * k) == codes[..n][k]
    {
      assert Bits(w, 35 - 6 * k, 30 - 6 * k) == codes[k];
    }
  }

  lemma DigitBits(w: nat, c: nat, r: nat, n: nat)
    requires c < 64 && r < WORDS && w == c * WORDS + r && 0 < n <= 5
    ensures Bits(w, 35 - 6 * n, 30 - 6 * n) == r / Below(n) % 64
  {
    if n == 1 {
      LowBits(w, c, r);
    } else {
      TailBits(w, c, r);
    }
  }

  lemma {:induction false} FieldOfDigits(w: nat, c: nat, digits: seq<nat>, r: nat)
    requires c < 64 && |digits| <= 5 && r < WORDS && w == c * WORDS + r && Gathers(w, [c] + digits)
    ensures Value(digits) == r / Below(|digits|)
    decreases |digits|
  {
    if digits != [] {
      var n := |digits|;
      GathersFewer(w, [c] + digits, n);
      assert ([c] + digits)[..n] == [c] + digits[..n - 1];
      FieldOfDigits(w, c, digits[..n - 1], r);
      LastDigit(w, [c] + digits, n);
      DigitBits(w, c, r, n);
      BelowNext(r, n);
    }
  }

  lemma LastDigit(w: nat, codes: seq<nat>, n: nat)
    requires 0 < n < |codes| <= 6 && Gathers(w, codes)
    ensures Bits(w, 35 - 6 * n, 30 - 6 * n) == codes[n]
  {
  }

  /** The word gathered from a first code and its digits, in two parts. */
  lemma WordOfCodes(w: nat, c: nat, digits: seq<nat>) returns (r: nat)
    requires c < 64 && |digits| <= 5 && Gathers(w, [c] + digits)
    ensures r < WORDS && w == c * WORDS + r && Value(digits) == r / Below(|digits|)
  {
    r := w % WORDS;
    Powers();
    assert Bits(w, 35, 30) == ([c] + digits)[0] == c;
    assert w / WORDS == c;
    FieldOfDigits(w, c, digits, r);
  }

  lemma AddressMeant(w: nat, c: nat, r: nat, n: nat)
    requires c < 64 && r < WORDS && w == c * WORDS + r && n == c / 2 % 4 + 1
    ensures AddressField(w) == r / Below(n)
    ensures SignedField(w) == Signed(r / Below(n), n)
  {
    TopBits(w, c, r);
    LowBits(w, c, r);
    Powers();
    Spans();
    SignBit(r, n);
  }

  lemma SignBit(r: nat, n: nat)
    requires r < WORDS && 1 <= n <= 4
    ensures r / 0x2000_0000 == (if 2 * (r / Below(n)) < Span(n) then 0 else 1)
  {
    Spans();
  }

  /** The fields, by the first code and what is below it. */
  function FieldsBy(c: nat, r: nat): Fields {
    var n := c / 2 % 4 + 1;
    Fields(c, c / 16, c / 8, c / 4, c / 32, c / 16 % 2, c / 2 % 8, c / 2 % 4, c % 2, c % 4 * WORDS + r, r / 0x100_0000, r,
           r / Below(n), Signed(r / Below(n), n))
  }

  lemma FieldsMeant(w: nat, c: nat, r: nat)
    requires c < 64 && r < WORDS && w == c * WORDS + r
    ensures FieldsOf(w) == FieldsBy(c, r)
  {
    TopBits(w, c, r);
    LowBits(w, c, r);
    AddressMeant(w, c, r, c / 2 % 4 + 1);
  }

  lemma MoveMeant(c: nat, digits: seq<nat>, r: nat)
    requires 8 <= c < 16 && |digits| == c / 2 % 4 + 1 && r < WORDS && Value(digits) == r / Below(|digits|)
    ensures Decode(c, digits) == CommandOf(FieldsBy(c, r))
  {
  }

  lemma WriteMeant(c: nat, digits: seq<nat>, r: nat, v: nat)
    requires 16 <= c < 32 && r < WORDS && Value(digits) == v && v == (if c < 24 then r / 0x100_0000 else r)
    ensures Decode(c, digits) == CommandOf(FieldsBy(c, r))
  {
  }

  lemma ShortReadMeant(c: nat, digits: seq<nat>, r: nat)
    requires 32 <= c < 48 && r < WORDS
    ensures Decode(c, digits) == CommandOf(FieldsBy(c, r))
  {
  }

  lemma LongReadMeant(c: nat, digits: seq<nat>, r: nat, v: nat)
    requires 48 <= c < 64 && r < WORDS && Value(digits) == v && v == r / 0x100_0000
    ensures Decode(c, digits) == CommandOf(FieldsBy(c, r))
  {
  }

  lemma CommandMeant(c: nat, digits: seq<nat>, r: nat)
    requires c < 64 && 1 + |digits| == Length(c) && r < WORDS && Value(digits) == r / Below(|digits|)
    ensures Decode(c, digits) == CommandOf(FieldsBy(c, r))
  {
    if c < 8 {
      SetMeant(c, r);
    } else if c < 16 {
      MoveMeant(c, digits, r);
    } else if c < 32 {
      WriteMeant(c, digits, r, Value(digits));
    } else if c < 48 {
      ShortReadMeant(c, digits, r);
    } else {
      LongReadMeant(c, digits, r, Value(digits));
    }
  }

  lemma SetMeant(c: nat, r: nat)
    requires c < 8 && r < WORDS
    ensures (c * WORDS + r) % WORDS == r && (c % 4 * WORDS + r) % WORDS == r
  {
  }

  /**
   * Whatever is left over in the register, the word gathered from a command's codes is taken for the
   * command that the codes stand for.
   */
  lemma DecodeIsMeant(c: nat, digits: seq<nat>, w: nat)
    requires c < 64 && 1 + |digits| == CodesIn(c) && Gathers(w, [c] + digits)
    ensures Decode(c, digits) == Meant(w)
  {
    LengthIsCodesIn(c);
    var r := WordOfCodes(w, c, digits);
    FieldsMeant(w, c, r);
    CommandMeant(c, digits, r);
  }

  // ----- answers

  /** How many codes a word goes out as. */
  function CodesOut(w: nat): (n: nat)
    ensures 1 <= n <= 6
  {
    CodesOutBy(Bits(w, 35, 33), Bits(w, 35, 32), Bits(w, 35, 34), Bits(w, 31, 30))
  }

  function CodesOutBy(b35_33: nat, b35_32: nat, b35_34: nat, b31_30: nat): (n: nat)
    ensures 1 <= n <= 6
  {
    if b35_33 == 0 then 1
    else if b35_32 == 2 then 6
    else if b35_32 == 3 then 2 + b31_30 % 4
    else if b35_34 == 1 then 2
    else if b35_34 == 2 then 1
    else 6
  }

  /** The codes a word goes out as. */
  function Emitted(w: nat): seq<nat> {
    [Bits(w, 35, 30), Bits(w, 29, 24), Bits(w, 23, 18), Bits(w, 17, 12), Bits(w, 11, 6), Bits(w, 5, 0)][..CodesOut(w)]
  }

  /** The word the executor puts out; `d` is what the bus carries where the word does not matter below its top. */
  function Packed(code: Exec.Code, d: nat): nat {
    match code
    case BusReset => 3 * WORDS + d % WORDS
    case Located(addr) => 2 * TWO32 + addr
    case BusError => 5 * WORDS + d % WORDS
    case WriteAck => 2 * WORDS + d % WORDS
    case Data(word, inc) => 7 * 0x2_0000_0000 + word / WORDS * 0x8000_0000 + (if inc then WORDS else 0) + word % WORDS
  }

  /** A data word packed as a reference to the one `back` data words before. */
  function Recalling(w: nat, back: nat): nat {
    var inc := Bits(w, 30, 30);
    if back == 1 then (6 + inc) * WORDS + w % WORDS
    else if back < 10 then (32 + (back - 2) * 2 + inc) * WORDS + w % WORDS
    else ((16 + (back - 10) / 64 * 2 + inc) * 64 + (back - 10) % 64) * 0x100_0000 + w % 0x100_0000
  }

  /** An address in as few digits as it needs, up to four. */
  function Shortened(addr: nat): nat {
    if addr < 0x40 then 0xc * WORDS + addr * 0x100_0000
    else if addr < 0x1000 then 0xd * WORDS + addr * 0x4_0000
    else if addr < 0x4_0000 then 0xe * WORDS + addr * 0x1000
    else if addr < 0x100_0000 then 0xf * WORDS + addr * 0x40
    else Packed(Exec.Located(addr), 0)
  }

  function CodesBy(c: nat, r: nat): (codes: seq<nat>)
    requires c < 48 || 56 <= c < 64
    ensures |codes| == AnswerLength(c)
  {
    [c, r / 0x100_0000, r / 0x4_0000 % 64, r / 0x1000 % 64, r / 0x40 % 64, r % 64][..AnswerLength(c)]
  }

  lemma LengthOut(w: nat, c: nat, r: nat)
    requires (c < 48 || 56 <= c < 64) && r < WORDS && w == c * WORDS + r
    ensures CodesOut(w) == AnswerLength(c)
  {
    TopBits(w, c, r);
    LengthBy(c);
  }

  lemma LengthBy(c: nat)
    requires c < 48 || 56 <= c < 64
    ensures CodesOutBy(c / 8, c / 4, c / 16, c % 4) == AnswerLength(c)
  {
  }

  lemma EmittedBy(w: nat, c: nat, r: nat)
    requires (c < 48 || 56 <= c < 64) && r < WORDS && w == c * WORDS + r
    ensures Emitted(w) == CodesBy(c, r)
  {
    LengthOut(w, c, r);
    TopBits(w, c, r);
    LowBits(w, c, r);
    TailBits(w, c, r);
  }

  lemma DataTop(word: nat, inc: bool) returns (c: nat, r: nat)
    requires word < TWO32
    ensures c == 0x38 + word / WORDS * 2 + Bump(inc) && 56 <= c < 64 && c % 2 == Bump(inc)
    ensures r == word % WORDS && Packed(Exec.Data(word, inc), 0) == c * WORDS + r
  {
    c, r := 0x38 + word / WORDS * 2 + Bump(inc), word % WORDS;
    assert c == 2 * (0x1c + word / WORDS) + Bump(inc);
  }

  lemma DataIsEmitted(word: nat, inc: bool)
    requires word < TWO32
    ensures Emitted(Packed(Exec.Data(word, inc), 0)) == AnswerCodes(word, Full, inc)
  {
    var c, r := DataTop(word, inc);
    EmittedBy(Packed(Exec.Data(word, inc), 0), c, r);
    FiveDigits(word);
    DigitsBelow(word);
  }

  lemma DigitsBelow(word: nat)
    ensures var r := word % WORDS;
            && r / 0x100_0000 == word / 0x100_0000 % 64 && r / 0x4_0000 % 64 == word / 0x4_0000 % 64
            && r / 0x1000 % 64 == word / 0x1000 % 64 && r / 0x40 % 64 == word / 0x40 % 64 && r % 64 == word % 64
  {
    UpperDigits(word, word / WORDS, word % WORDS);
    LowerDigits(word, word / WORDS, word % WORDS);
  }

  lemma UpperDigits(word: nat, q: nat, r: nat)
    requires r < WORDS && word == q * WORDS + r
    ensures r / 0x100_0000 == word / 0x100_0000 % 64 && r / 0x4_0000 % 64 == word / 0x4_0000 % 64
  {
    assert word / 0x100_0000 == q * 64 + r / 0x100_0000;
    assert word / 0x4_0000 == q * 0x1000 + r / 0x4_0000;
  }

  lemma LowerDigits(word: nat, q: nat, r: nat)
    requires r < WORDS && word == q * WORDS + r
    ensures r / 0x1000 % 64 == word / 0x1000 % 64 && r / 0x40 % 64 == word / 0x40 % 64 && r % 64 == word % 64
  {
    assert word / 0x1000 == q * 0x4_0000 + r / 0x1000;
    assert word / 0x40 == q * 0x100_0000 + r / 0x40;
  }

  lemma StepOfData(word: nat, inc: bool)
    requires word < TWO32
    ensures Bits(Packed(Exec.Data(word, inc), 0), 30, 30) == Bump(inc)
  {
    var c, r := DataTop(word, inc);
    TopBits(Packed(Exec.Data(word, inc), 0), c, r);
  }

  lemma ReferenceIsEmitted(w: nat, back: nat, inc: bool)
    requires 1 <= back <= 521 && Bits(w, 30, 30) == Bump(inc)
    ensures Emitted(Recalling(w, back))
         == if back == 1 then [6 + Bump(inc)]
            else if back < 10 then [0x20 + (back - 2) * 2 + Bump(inc)]
            else [0x10 + (back - 10) / 64 * 2 + Bump(inc), (back - 10) % 64]
  {
    if back == 1 {
      EmittedBy(Recalling(w, back), 6 + Bump(inc), w % WORDS);
    } else if back < 10 {
      EmittedBy(Recalling(w, back), 32 + (back - 2) * 2 + Bump(inc), w % WORDS);
    } else {
      var r := (back - 10) % 64 * 0x100_0000 + w % 0x100_0000;
      EmittedBy(Recalling(w, back), 16 + (back - 10) / 64 * 2 + Bump(inc), r);
      assert r / 0x100_0000 == (back - 10) % 64;
    }
  }

  /** A word that was read goes out as an answer: in full, or as the reference the compressor chose. */
  lemma AnswerIsEmitted(word: nat, how: How, inc: bool)
    requires word < TWO32 && Reachable(how)
    ensures var w := Packed(Exec.Data(word, inc), 0);
            Emitted(if how.Full? then w else Recalling(w, BackOf(how))) == AnswerCodes(word, how, inc)
  {
    if how.Full? {
      DataIsEmitted(word, inc);
    } else {
      StepOfData(word, inc);
      ReferenceIsEmitted(Packed(Exec.Data(word, inc), 0), BackOf(how), inc);
      if how.Distant? {
        OneDigit(how.beyond);
      }
    }
  }

  lemma OneDigitReport(addr: nat)
    requires addr < 0x40
    ensures CodesBy(0xc, addr * 0x100_0000) == [0xc] + Digits(addr, 1)
  {
    OneDigit(addr);
    assert addr * 0x100_0000 / 0x100_0000 == addr == addr % 64;
  }

  lemma TwoDigitReport(addr: nat)
    requires addr < 0x1000
    ensures CodesBy(0xd, addr * 0x4_0000) == [0xd] + Digits(addr, 2)
  {
    TwoDigits(addr);
    assert addr * 0x4_0000 / 0x100_0000 == addr / 0x40 == addr / 0x40 % 64;
    assert addr * 0x4_0000 / 0x4_0000 == addr;
  }

  lemma ThreeDigitReport(addr: nat)
    requires addr < 0x4_0000
    ensures CodesBy(0xe, addr * 0x1000) == [0xe] + Digits(addr, 3)
  {
    ThreeDigits(addr);
    assert addr * 0x1000 / 0x100_0000 == addr / 0x1000 == addr / 0x1000 % 64;
    assert addr * 0x1000 / 0x4_0000 == addr / 0x40;
    assert addr * 0x1000 / 0x1000 == addr;
  }

  lemma FourDigitReport(addr: nat)
    requires addr < 0x100_0000
    ensures CodesBy(0xf, addr * 0x40) == [0xf] + Digits(addr, 4)
  {
    FourDigits(addr);
    FourParts(addr);
  }

  lemma FourParts(addr: nat)
    requires addr < 0x100_0000
    ensures addr * 0x40 / 0x100_0000 == addr / 0x4_0000 == addr / 0x4_0000 % 64 && addr * 0x40 / 0x4_0000 == addr / 0x1000
    ensures addr * 0x40 / 0x1000 == addr / 0x40 && addr * 0x40 / 0x40 == addr
  {
  }

  lemma FullReport(addr: nat)
    requires addr < WORDS
    ensures CodesBy(8, addr) == [8] + Digits(addr, 5)
  {
    FiveDigits(addr);
  }

  /** A report of an address goes out as such a report. */
  lemma ReportIsEmitted(addr: nat) returns (n: nat)
    requires addr < WORDS
    ensures LegalNoise(Report(n), addr) && Emitted(Shortened(addr)) == NoiseCodes(Report(n), addr)
  {
    Spans();
    if addr < 0x40 {
      n := 1;
      OneDigitReport(addr);
      EmittedBy(Shortened(addr), 0xc, addr * 0x100_0000);
    } else if addr < 0x1000 {
      n := 2;
      TwoDigitReport(addr);
      EmittedBy(Shortened(addr), 0xd, addr * 0x4_0000);
    } else if addr < 0x4_0000 {
      n := 3;
      ThreeDigitReport(addr);
      EmittedBy(Shortened(addr), 0xe, addr * 0x1000);
    } else if addr < 0x100_0000 {
      n := 4;
      FourDigitReport(addr);
      EmittedBy(Shortened(addr), 0xf, addr * 0x40);
    } else {
      n := 5;
      FullReport(addr);
      EmittedBy(Shortened(addr), 8, addr);
    }
  }

  /** What else comes from the FPGA end: acknowledgements of writes, and the idle, busy and interrupt words. */
  lemma NoiseIsEmitted(d: nat, at: nat)
    ensures Emitted(Packed(Exec.WriteAck, d)) == NoiseCodes(Ack, at)
    ensures Emitted(0 * WORDS + d % WORDS) == NoiseCodes(Idle, at)
    ensures Emitted(1 * WORDS + d % WORDS) == NoiseCodes(Busy, at)
    ensures Emitted(4 * WORDS + d % WORDS) == NoiseCodes(Interrupt, at)
  {
    EmittedBy(2 * WORDS + d % WORDS, 2, d % WORDS);
    EmittedBy(0 * WORDS + d % WORDS, 0, d % WORDS);
    EmittedBy(1 * WORDS + d % WORDS, 1, d % WORDS);
    EmittedBy(4 * WORDS + d % WORDS, 4, d % WORDS);
  }

  /** The end of a read by a bus error, or of everything by a reset. */
  lemma FaultIsEmitted(d: nat)
    ensures Emitted(Packed(Exec.BusReset, d)) == [3] && Emitted(Packed(Exec.BusError, d)) == [5]
  {
    EmittedBy(3 * WORDS + d % WORDS, 3, d % WORDS);
    EmittedBy(5 * WORDS + d % WORDS, 5, d % WORDS);
  }
}
