/** The symbol tables of the FPGA end of the debug bus, over character numbers. */
module TtyChars {
  import opened TtyCodec

  /** An entry of the table that decodes: six bits and, above them, whether the character is one of the 64. */
  function Remap(k: nat): (newv: nat)
    requires k < 128
    ensures newv < 128
  {
    if 48 <= k <= 57 then 0x40 + k % 16
    else if 65 <= k <= 90 then 0x40 + (k % 64 + 0x09) % 64
    else if 97 <= k <= 122 then 0x40 + (k % 64 + 0x03) % 64
    else if k == 64 then 0x40 + 0x3e
    else if k == 37 then 0x40 + 0x3f
    else 0
  }

  /** A character as it comes in: a code, or something that ends a line. */
  function Heard(k: nat): nat {
    if k < 128 && Remap(k) >= 0x40 then Remap(k) % 0x40 else INVALID
  }

  /** A code as it goes out; beyond the codes it is a newline. */
  function Spoken(k: nat): (c: nat)
    requires k < 128
    ensures c < 128
  {
    if k >= 64 then 0x0a
    else if k <= 9 then 0x30 + k % 16
    else if k <= 35 then 0x41 + k - 10
    else if k <= 61 then 0x61 + k - 36
    else if k == 62 then 0x40
    else 0x25
  }

  /** The codes that the FPGA end makes of a text. */
  function CodesHeard(text: string): seq<nat> {
    seq(|text|, k requires 0 <= k < |text| => Heard(text[k] as nat))
  }

  /** Both ends decode every character alike. */
  lemma HeardAlike(b: char)
    ensures Heard(b as nat) == Chardec(b)
  {
    var k := b as nat;
    if 48 <= k <= 57 {
      assert k == 3 * 16 + (k - 48);
    } else if 65 <= k <= 90 {
      assert k == 64 + (k - 64);
    } else if 97 <= k <= 122 {
      assert k == 64 + (k - 64);
    }
  }

  /** The FPGA end decodes each of the host's symbols to the code it stands for. */
  lemma HostIsHeard(v: nat)
    requires v < 64
    ensures Heard(Charenc(v) as nat) == v
  {
    CodeIsBijective(v, '0');
    HeardAlike(Charenc(v));
  }

  /** The host decodes each of the FPGA end's symbols to the code it stands for, and its newline to none. */
  lemma FpgaIsHeard(v: nat)
    requires v < 64
    ensures Chardec(Spoken(v) as char) == v && Spoken(v) == Charenc(v) as nat
    ensures Chardec(Spoken(64) as char) == INVALID
  {
  }

  lemma TextIsHeard(codes: seq<nat>)
    requires forall k | 0 <= k < |codes| :: IsCode(codes[k])
    ensures CodesHeard(Text(codes)) == codes
  {
    CodesOfText(codes);
    forall k | 0 <= k < |codes|
      ensures CodesHeard(Text(codes))[k] == Codes(Text(codes))[k]
    {
      HeardAlike(Text(codes)[k]);
    }
  }
}
