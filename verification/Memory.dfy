/** Words of four byte lanes, and the sequential memory both memory models refine. */
module Memory {
  import opened Words

  type Byte = b: nat | b < 0x100

  datatype Word = Word(b3: Byte, b2: Byte, b1: Byte, b0: Byte)

  const ZERO := Word(0, 0, 0, 0)

  /** The byte selects of a write. */
  datatype Select = Select(s3: bool, s2: bool, s1: bool, s0: bool)

  function Merge(held: Word, data: Word, sel: Select): Word {
    Word(if sel.s3 then data.b3 else held.b3, if sel.s2 then data.b2 else held.b2,
         if sel.s1 then data.b1 else held.b1, if sel.s0 then data.b0 else held.b0)
  }

  /** A memory after a byte-select write. */
  function Store(mem: seq<Word>, addr: nat, data: Word, sel: Select): (m: seq<Word>)
    requires addr < |mem|
    ensures |m| == |mem|
    ensures forall a | 0 <= a < |mem| && a != addr :: m[a] == mem[a]
    ensures m[addr].b3 == (if sel.s3 then data else mem[addr]).b3 && m[addr].b2 == (if sel.s2 then data else mem[addr]).b2
    ensures m[addr].b1 == (if sel.s1 then data else mem[addr]).b1 && m[addr].b0 == (if sel.s0 then data else mem[addr]).b0
  {
    mem[addr := Merge(mem[addr], data, sel)]
  }

  // ----- words as numbers

  function Number(w: Word): (v: nat)
    ensures v < TWO32
  {
    w.b3 * 0x100_0000 + w.b2 * 0x1_0000 + w.b1 * 0x100 + w.b0
  }

  /** All the bits of a lane, or none. */
  function Fill(on: bool): Byte {
    if on then 0xff else 0
  }

  /** The bits of the selected lanes, as a word. */
  function Lanes(sel: Select): Word {
    Word(Fill(sel.s3), Fill(sel.s2), Fill(sel.s1), Fill(sel.s0))
  }

  /** The same, as a number. */
  function Mask(sel: Select): (m: nat)
    ensures m < TWO32
  {
    Number(Lanes(sel))
  }

  function Unselected(sel: Select): Select {
    Select(!sel.s3, !sel.s2, !sel.s1, !sel.s0)
  }

  lemma Complement(m: Word, c: Word)
    requires c.b3 == 255 - m.b3 && c.b2 == 255 - m.b2 && c.b1 == 255 - m.b1 && c.b0 == 255 - m.b0
    ensures Number(c) == TWO32 - 1 - Number(m)
  {
  }

  /** `sel`, as it is gathered from the byte selects: one lane after the other, with `|`. */
  method GatherMask(sel: Select) returns (m: nat)
    ensures m == Mask(sel)
  {
    m := 0;
    ghost var top: nat := Fill(sel.s3);
    ZeroOr(0xff00_0000);
    if sel.s3 {
      m := Or(m, 0xff00_0000);
    }
    assert m == top * 0x100_0000;
    LaneJoins(top);
    if sel.s2 {
      m := Or(m, 0xff_0000);
    }
    top := top * 256 + Fill(sel.s2);
    assert m == top * 0x1_0000;
    LaneJoins(top);
    if sel.s1 {
      m := Or(m, 0xff00);
    }
    top := top * 256 + Fill(sel.s1);
    assert m == top * 0x100;
    LaneJoins(top);
    if sel.s0 {
      m := Or(m, 0xff);
    }
    LanesAreDigits(Lanes(sel));
  }

  lemma LanesAreDigits(w: Word)
    ensures Number(w) == ((w.b3 * 256 + w.b2) * 256 + w.b1) * 256 + w.b0
  {
  }

  /** A lane joins those above it. */
  lemma LaneJoins(top: nat)
    ensures Or(top * 0x100_0000, 0xff_0000) == top * 0x100_0000 + 0xff_0000
    ensures Or(top * 0x1_0000, 0xff00) == top * 0x1_0000 + 0xff00
    ensures Or(top * 0x100, 0xff) == top * 0x100 + 0xff
  {
    Pow2Words();
    Pow2Add(8, 16);
    OrIsSum(top, 24, 0xff_0000);
    OrIsSum(top, 16, 0xff00);
    OrIsSum(top, 8, 0xff);
  }

  /** The lane that holds bit `k`, and whether it is selected. */
  function Lane(w: Word, k: nat): Byte {
    if k < 8 then w.b0 else if k < 16 then w.b1 else if k < 24 then w.b2 else w.b3
  }

  predicate Selected(sel: Select, k: nat) {
    if k < 8 then sel.s0 else if k < 16 then sel.s1 else if k < 24 then sel.s2 else sel.s3
  }

  lemma BitOfNumber(w: Word, k: nat)
    requires k < 32
    ensures Bit(Number(w), k) == Bit(Lane(w, k), k % 8)
  {
    BitOfJoined((w.b3 * 256 + w.b2) * 256 + w.b1, w.b0, k);
    if k >= 8 {
      BitOfJoined(w.b3 * 256 + w.b2, w.b1, k - 8);
    }
    if k >= 16 {
      BitOfJoined(w.b3, w.b2, k - 16);
    }
  }

  lemma BitOfFill(on: bool, j: nat)
    requires j < 8
    ensures Bit(Fill(on), j) == on
  {
    Pow2Words();
    BitOfOnes(8, j);
    ZeroBits(j);
  }

  lemma BitOfMask(sel: Select, k: nat, on: bool)
    requires k < 32 && on == Selected(sel, k)
    ensures Bit(Mask(sel), k) == on
  {
    BitOfNumber(Lanes(sel), k);
    BitOfFill(on, k % 8);
  }

  lemma BitOfUnmask(sel: Select, k: nat, on: bool)
    requires k < 32 && on == Selected(sel, k)
    ensures Bit(Mask(Unselected(sel)), k) == !on
  {
    BitOfMask(Unselected(sel), k, !on);
  }

  lemma BitOfMerged(held: Word, data: Word, sel: Select, k: nat)
    requires k < 32
    ensures Bit(Number(Merge(held, data, sel)), k) == Bit(Number(if Selected(sel, k) then data else held), k)
  {
    BitOfNumber(held, k);
    BitOfNumber(data, k);
    BitOfNumber(Merge(held, data, sel), k);
  }

  /** A word made of two by a mask `m` and its complement `c`. */
  lemma MadeByMask(x: nat, y: nat, z: nat, c: nat, m: nat)
    requires z < TWO32 && c < TWO32 && m < TWO32
    requires forall k: nat | k < 32 :: Bit(c, k) == !Bit(m, k) && Bit(z, k) == if Bit(m, k) then Bit(y, k) else Bit(x, k)
    ensures z == Or(And(x, c), And(y, m))
  {
    forall k: nat | k < 32
      ensures Bit(z, k) == Bit(Or(And(x, c), And(y, m)), k)
    {
      BitOfAnd(x, c, k);
      BitOfAnd(y, m, k);
      BitOfOr(And(x, c), And(y, m), k);
    }
    Pow2Words();
    AndBelow(x, c);
    AndBelow(y, m);
    OrBelow(And(x, c), And(y, m), 32);
    BitsDetermine(z, Or(And(x, c), And(y, m)), 32);
  }

  lemma MaskBits(sel: Select, k: nat)
    requires k < 32
    ensures Bit(Mask(Unselected(sel)), k) == !Bit(Mask(sel), k)
  {
    BitOfMask(sel, k, Selected(sel, k));
    BitOfUnmask(sel, k, Selected(sel, k));
  }

  lemma MergedBit(held: Word, data: Word, sel: Select, k: nat)
    requires k < 32
    ensures Bit(Number(Merge(held, data, sel)), k) == if Bit(Mask(sel), k) then Bit(Number(data), k) else Bit(Number(held), k)
  {
    BitOfMask(sel, k, Selected(sel, k));
    BitOfMerged(held, data, sel, k);
  }

  /** A write by lanes is a write of the masked bits. */
  lemma MergeIsMasked(held: Word, data: Word, sel: Select)
    ensures Number(Merge(held, data, sel))
         == Or(And(Number(held), TWO32 - 1 - Mask(sel)), And(Number(data), Mask(sel)))
  {
    var c := MaskComplement(sel);
    MergedByMask(held, data, sel, c);
  }

  lemma MaskComplement(sel: Select) returns (c: nat)
    ensures c == TWO32 - 1 - Mask(sel) && c == Mask(Unselected(sel))
  {
    c := Mask(Unselected(sel));
    Complement(Lanes(sel), Lanes(Unselected(sel)));
  }

  lemma MergedByMask(held: Word, data: Word, sel: Select, c: nat)
    requires c == Mask(Unselected(sel))
    ensures Number(Merge(held, data, sel)) == Or(And(Number(held), c), And(Number(data), Mask(sel)))
  {
    forall k: nat | k < 32
      ensures Bit(c, k) == !Bit(Mask(sel), k)
    {
      MaskBits(sel, k);
    }
    forall k: nat | k < 32
      ensures Bit(Number(Merge(held, data, sel)), k) == if Bit(Mask(sel), k) then Bit(Number(data), k) else Bit(Number(held), k)
    {
      MergedBit(held, data, sel, k);
    }
    MadeByMask(Number(held), Number(data), Number(Merge(held, data, sel)), c, Mask(sel));
  }
}
