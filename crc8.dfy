/** The 8-bit CRC of crc8.c: MSB first, polynomial x^8 + x^2 + x + 1, initial
    value 0x00, final xor 0x00, no reflection (the CRC-8/SMBUS entry of the
    RevEng CRC catalogue). Both the compiled uint8_t routine and the disabled
    uint16_t routine are modelled; both are proved to compute `Crc`. */
module Crc8 {
  import opened CStrings

  const InXor: bv8 := 0x00
  const OutXor: bv8 := 0x00
  /** x^8 + x^2 + x + 1, with the x^8 term written out. */
  const Polynomial: bv16 := 0x107
  /** What the 8-bit register xors in when its top bit falls off. */
  const Poly8: bv8 := (Polynomial & 0xff) as bv8
  /** What the 16-bit register xors in before its shift. */
  const Poly16: bv16 := Polynomial << 7

  /** One bit of long division: shift left, and subtract the polynomial when
      the bit shifted out was set. */
  function BitStep(c: bv8): bv8 {
    if c & 0x80 != 0 then (c << 1) ^ Poly8 else c << 1
  }

  /** `k` bit steps applied to `c`. */
  function Shifts(c: bv8, k: nat): bv8 {
    if k == 0 then c else BitStep(Shifts(c, k - 1))
  }

  /** The register after absorbing one message byte. */
  function ByteStep(c: bv8, b: bv8): bv8 {
    Shifts(c ^ b, 8)
  }

  /** The register after absorbing the bytes of `m` in order, from `c`. */
  function Fold(c: bv8, m: seq<bv8>): bv8
    decreases |m|
  {
    if m == [] then c else Fold(ByteStep(c, m[0]), m[1..])
  }

  /** The CRC of a message. */
  function Crc(m: seq<bv8>): (r: bv8)
    ensures m == [] ==> r == 0
  {
    Fold(InXor, m) ^ OutXor
  }

  /** Absorbing `a ++ b` is absorbing `a`, then continuing with `b`. */
  lemma {:induction false} FoldAppend(c: bv8, a: seq<bv8>, b: seq<bv8>)
    ensures Fold(c, a + b) == Fold(Fold(c, a), b)
    decreases |a|
  {
    if a == [] {
      assert a + b == b;
    } else {
      assert (a + b)[0] == a[0] && (a + b)[1..] == a[1..] + b;
      FoldAppend(ByteStep(c, a[0]), a[1..], b);
    }
  }

  /** The CRC of a concatenation continues the fold from the CRC of the prefix. */
  lemma CrcAppend(a: seq<bv8>, b: seq<bv8>)
    ensures Crc(a + b) == Fold(Crc(a), b)
  {
    FoldAppend(InXor, a, b);
    assert Crc(a) == Fold(InXor, a) && Crc(a + b) == Fold(InXor, a + b);
  }

  /** A zero register stays zero under bit steps. */
  lemma {:induction false} ShiftsOfZero(k: nat)
    ensures Shifts(0, k) == 0
  {
    if k > 0 {
      ShiftsOfZero(k - 1);
    }
  }

  /** The catalogue's residue 0x00: the CRC of a message followed by its CRC is 0. */
  lemma Residue(m: seq<bv8>)
    ensures Crc(m + [Crc(m)]) == 0
  {
    CrcAppend(m, [Crc(m)]);
    ShiftsOfZero(8);
  }

  /** The catalogue's check value: the CRC of ASCII "123456789" is 0xF4. */
  lemma CheckValue()
    ensures Crc([0x31, 0x32, 0x33, 0x34, 0x35, 0x36, 0x37, 0x38, 0x39]) == 0xF4
  {
    var m: seq<bv8> := [0x31, 0x32, 0x33, 0x34, 0x35, 0x36, 0x37, 0x38, 0x39];
    assert ByteStep(0x00, 0x31) == 0x97;
    assert ByteStep(0x97, 0x32) == 0x72;
    assert ByteStep(0x72, 0x33) == 0xC0;
    assert ByteStep(0xC0, 0x34) == 0xC2;
    assert ByteStep(0xC2, 0x35) == 0xCB;
    assert ByteStep(0xCB, 0x36) == 0xFD;
    assert ByteStep(0xFD, 0x37) == 0x78;
    assert ByteStep(0x78, 0x38) == 0xC7;
    assert ByteStep(0xC7, 0x39) == 0xF4;
    assert Fold(0xF4, m[9..]) == 0xF4;
    assert Fold(0xC7, m[8..]) == 0xF4;
    assert Fold(0x78, m[7..]) == 0xF4;
    assert Fold(0xFD, m[6..]) == 0xF4;
    assert Fold(0xCB, m[5..]) == 0xF4;
    assert Fold(0xC2, m[4..]) == 0xF4;
    assert Fold(0xC0, m[3..]) == 0xF4;
    assert Fold(0x72, m[2..]) == 0xF4;
    assert Fold(0x97, m[1..]) == 0xF4;
  }

  /** The body of the outer loop of the uint8_t routine: xor the byte in,
      then eight bit steps. */
  method AbsorbByte(c: bv8, b: bv8) returns (crc: bv8)
    ensures crc == ByteStep(c, b)
  {
    crc := c ^ b;
    ghost var start := crc;
    var bit := 8;
    while bit > 0
      invariant 0 <= bit <= 8
      invariant crc == Shifts(start, 8 - bit)
    {
      var msb := crc & 0x80;
      crc := crc << 1;
      if msb != 0 {
        crc := crc ^ Poly8;
      }
      bit := bit - 1;
    }
  }

  /** `crc8`, the compiled uint8_t routine: walk the string to its NUL, xor
      each byte into the register, then do eight bit steps. */
  method Compute(p: seq<bv8>) returns (crc: bv8)
    requires Terminated(p)
    ensures crc == Crc(CString(p))
  {
    crc := InXor;
    var i := 0;
    while p[i] != 0
      invariant 0 <= i < |p| && Terminated(p[i..])
      invariant NoNul(p[..i])
      invariant crc == Fold(InXor, p[..i])
      decreases |p| - i
    {
      crc := AbsorbByte(crc, p[i]);
      assert p[..i + 1] == p[..i] + [p[i]];
      FoldAppend(InXor, p[..i], [p[i]]);
      i := i + 1;
    }
    CStringAt(p, i);
    crc := crc ^ OutXor;
  }

  /** The 16-bit register with the 8-bit register `c` in its high byte. */
  function High(c: bv8): bv16 {
    (c as bv16) << 8
  }

  /** One step of the uint16_t routine: xor the shifted polynomial in when the
      top bit is set, then shift. */
  function WideBitStep(w: bv16): bv16 {
    (if w & 0x8000 != 0 then w ^ Poly16 else w) << 1
  }

  /** A wide step on a register whose low byte is clear is an 8-bit step on its
      high byte, and the low byte stays clear. */
  lemma WideBitStepIsBitStep(c: bv8)
    ensures WideBitStep(High(c)) == High(BitStep(c))
  {
  }

  /** Xoring a byte into the high byte of the wide register. */
  lemma HighXor(c: bv8, b: bv8)
    ensures High(c) ^ ((b as bv16) << 8) == High(c ^ b)
  {
  }

  /** The result byte of the wide register is its high byte. */
  lemma HighByte(c: bv8)
    ensures (High(c) >> 8) as bv8 == c
  {
  }

  /** The body of the outer loop of the uint16_t routine: xor the byte into
      the high byte, then eight wide steps. The register holds the 8-bit
      register `c` in its high byte before and `ByteStep(c, b)` after. */
  method AbsorbByteWide(w: bv16, b: bv8, ghost c: bv8) returns (crc: bv16)
    requires w == High(c)
    ensures crc == High(ByteStep(c, b))
  {
    ghost var start := c ^ b;
    HighXor(c, b);
    crc := w ^ ((b as bv16) << 8);
    var bit := 8;
    while bit > 0
      invariant 0 <= bit <= 8
      invariant crc == High(Shifts(start, 8 - bit))
    {
      ghost var before := crc;
      WideBitStepIsBitStep(Shifts(start, 8 - bit));
      if crc & 0x8000 != 0 {
        crc := crc ^ Poly16;
      }
      crc := crc << 1;
      assert crc == WideBitStep(before);
      bit := bit - 1;
    }
  }

  /** `crc8`, the disabled uint16_t routine: the message byte enters the high
      byte of the register, and the result is the high byte. */
  method ComputeWide(p: seq<bv8>) returns (r: bv8)
    requires Terminated(p)
    ensures r == Crc(CString(p))
  {
    var crc: bv16 := InXor as bv16;
    var i := 0;
    while p[i] != 0
      invariant 0 <= i < |p| && Terminated(p[i..])
      invariant NoNul(p[..i])
      invariant crc == High(Fold(InXor, p[..i]))
      decreases |p| - i
    {
      crc := AbsorbByteWide(crc, p[i], Fold(InXor, p[..i]));
      assert p[..i + 1] == p[..i] + [p[i]];
      FoldAppend(InXor, p[..i], [p[i]]);
      i := i + 1;
    }
    CStringAt(p, i);
    HighByte(Fold(InXor, p[..i]));
    r := (crc >> 8) as bv8 ^ OutXor;
  }
}
