/** The 32-bit FNV-1a hash of fnv1a.h over a NUL-terminated string. The
    32-bit register is a `u32`, so every operation on it is modulo 2^32.
    Whether `char` is signed is a property of the target platform; it is a
    parameter here because it decides how a byte of 0x80 or more is widened
    before it is xored into the register. */
module Fnv1a {
  import opened CStrings
  import opened Unsigned32

  /** uint32_t: the register's type; its arithmetic below is modulo 2^32. */
  newtype u32 = x: int | 0 <= x < Modulus

  /** FNV_OFFSET_32 */
  const OffsetBasis: u32 := 2166136261
  /** FNV_PRIME_32 */
  const Prime: u32 := 16777619

  function Pow2(k: nat): (r: nat)
    ensures r > 0
  {
    if k == 0 then 1 else 2 * Pow2(k - 1)
  }

  lemma {:induction false} Pow2Add(a: nat, b: nat)
    ensures Pow2(a + b) == Pow2(a) * Pow2(b)
  {
    if a > 0 {
      Pow2Add(a - 1, b);
    }
  }

  /** The powers of two the shift-add form uses, and 2^32 itself. */
  lemma Pow2Values()
    ensures Pow2(1) == 2 && Pow2(4) == 16 && Pow2(7) == 128 && Pow2(8) == 256
    ensures Pow2(24) == 0x100_0000 && Pow2(32) == Modulus
  {
    assert Pow2(8) == 256;
    Pow2Add(8, 8);
    Pow2Add(16, 8);
    Pow2Add(24, 8);
  }

  /** The exclusive or of two binary digits. */
  function Differ(p: nat, q: nat): nat {
    if p == q then 0 else 1
  }

  /** Bitwise exclusive or of two naturals, one binary digit at a time. */
  function XorNat(a: nat, b: nat): nat
    decreases a + b
  {
    if a == 0 && b == 0 then 0
    else 2 * XorNat(a / 2, b / 2) + Differ(a % 2, b % 2)
  }

  /** Exclusive or never sets a bit above the width of its operands. */
  lemma {:induction false} XorNatBound(a: nat, b: nat, k: nat)
    requires a < Pow2(k) && b < Pow2(k)
    ensures XorNat(a, b) < Pow2(k)
    decreases a + b
  {
    if a != 0 || b != 0 {
      XorNatBound(a / 2, b / 2, k - 1);
    }
  }

  /** `a ^ b` on uint32_t. */
  function Xor(a: u32, b: u32): u32 {
    Pow2Values();
    XorNatBound(a as nat, b as nat, 32);
    XorNat(a as nat, b as nat) as u32
  }

  /** `a * b` on uint32_t: the product modulo 2^32. */
  function Mul(a: u32, b: u32): u32 {
    (a as int * b as int % Modulus) as u32
  }

  /** `a + b` on uint32_t: the sum modulo 2^32. */
  function Add(a: u32, b: u32): u32 {
    ((a as int + b as int) % Modulus) as u32
  }

  /** `a << k` on uint32_t: the bits shifted out at the top are lost. */
  function Shl(a: u32, k: nat): u32
    requires k < 32
  {
    (a as int * Pow2(k) % Modulus) as u32
  }

  /** The value of a `char` holding byte `b`. */
  function CharValue(b: bv8, signedChar: bool): (v: int)
    ensures -128 <= v < 256
    ensures v % 256 == b as int
  {
    if signedChar && b >= 0x80 then b as int - 256 else b as int
  }

  /** `ch` converted to uint32_t for `hash ^ ch`: its value modulo 2^32, so a
      negative `char` is sign-extended and sets the upper 24 bits. */
  function Widen(b: bv8, signedChar: bool): (w: u32)
    ensures w as int % Modulus == CharValue(b, signedChar) % Modulus
    ensures !signedChar || b < 0x80 ==> w as int == b as int
    ensures signedChar && b >= 0x80 ==> w as int == 0xFFFF_FF00 + b as int
  {
    var v := CharValue(b, signedChar);
    if v >= 0 then v as u32 else (v + Modulus) as u32
  }

  /** One iteration of the loop in fnv1a_32: xor first, then multiply. */
  function Step(h: u32, b: bv8, signedChar: bool): u32 {
    Mul(Xor(h, Widen(b, signedChar)), Prime)
  }

  /** The register after hashing the bytes of `m` in order, from `h`. */
  function Fold(h: u32, m: seq<bv8>, signedChar: bool): u32
    decreases |m|
  {
    if m == [] then h else Fold(Step(h, m[0], signedChar), m[1..], signedChar)
  }

  /** What fnv1a_32 returns for a string whose bytes are `m`. */
  function Hash(m: seq<bv8>, signedChar: bool): (r: u32)
    ensures m == [] ==> r == OffsetBasis
  {
    Fold(OffsetBasis, m, signedChar)
  }

  /** FNV-1a as Fowler, Noll and Vo define it: for each octet, xor it into the
      low octet of the hash, then multiply by the prime modulo 2^32. */
  function Fnv1aOctets(h: u32, octets: seq<bv8>): u32
    decreases |octets|
  {
    if octets == [] then h
    else Fnv1aOctets(Mul(Xor(h, octets[0] as int as u32), Prime), octets[1..])
  }

  /** With an unsigned `char` the source computes FNV-1a. */
  lemma {:induction false} UnsignedCharIsFnv1a(h: u32, m: seq<bv8>)
    ensures Fold(h, m, false) == Fnv1aOctets(h, m)
    decreases |m|
  {
    if m != [] {
      UnsignedCharIsFnv1a(Step(h, m[0], false), m[1..]);
    }
  }

  /** On 7-bit input the signedness of `char` makes no difference, so the
      source computes FNV-1a on every platform. */
  lemma {:induction false} SevenBitIsFnv1a(h: u32, m: seq<bv8>)
    requires forall i :: 0 <= i < |m| ==> m[i] < 0x80
    ensures Fold(h, m, true) == Fnv1aOctets(h, m)
    decreases |m|
  {
    if m != [] {
      SevenBitIsFnv1a(Step(h, m[0], true), m[1..]);
    }
  }

  /** Xoring with a fixed value is injective. */
  lemma {:induction false} XorNatInjective(a: nat, b: nat, c: nat)
    requires XorNat(a, b) == XorNat(a, c)
    ensures b == c
    decreases b + c
  {
    if b + c > 0 {
      var x, y := XorNat(a / 2, b / 2), XorNat(a / 2, c / 2);
      var p, q := Differ(a % 2, b % 2), Differ(a % 2, c % 2);
      assert XorNat(a, b) == 2 * x + p;
      assert XorNat(a, c) == 2 * y + q;
      DigitsAgree(x, p, y, q);
      XorNatInjective(a / 2, b / 2, c / 2);
      assert b % 2 == c % 2;
    }
  }

  /** Two naturals written with the same last binary digit and the same rest. */
  lemma DigitsAgree(x: nat, p: nat, y: nat, q: nat)
    requires p < 2 && q < 2 && 2 * x + p == 2 * y + q
    ensures x == y && p == q
  {
  }

  /** The inverse of the prime modulo 2^32. */
  const PrimeInverse: int := 899433627

  /** Multiplying by the prime modulo 2^32 is undone by its inverse, so no two
      registers have the same product. */
  lemma MulPrimeInjective(x: u32, y: u32)
    requires Mul(x, Prime) == Mul(y, Prime)
    ensures x == y
  {
    assert Prime as int * PrimeInverse == 3513497 * Modulus + 1;
    MulPrimeUndone(x);
    MulPrimeUndone(y);
  }

  lemma MulPrimeUndone(x: u32)
    ensures Mul(x, Prime) as int * PrimeInverse % Modulus == x as int
  {
    var p := x as int * Prime as int;
    var q := p / Modulus;
    assert p == q * Modulus + Mul(x, Prime) as int;
    var k := x as int * 3513497 - q * PrimeInverse;
    assert Mul(x, Prime) as int * PrimeInverse == x as int + k * Modulus;
    assert (x as int + k * Modulus) % Modulus == x as int;
  }

  /** With a signed `char` the source does not compute FNV-1a: for every
      register and every byte of 0x80 or more, the step differs from the
      step of FNV-1a. */
  lemma SignExtensionDiverges(h: u32, b: bv8)
    requires b >= 0x80
    ensures Step(h, b, true) != Step(h, b, false)
  {
    if Step(h, b, true) == Step(h, b, false) {
      MulPrimeInjective(Xor(h, Widen(b, true)), Xor(h, Widen(b, false)));
      XorNatInjective(h as nat, Widen(b, true) as nat, Widen(b, false) as nat);
      assert false;
    }
  }

  /** Hashing `a ++ b` is hashing `a`, then continuing with `b`. */
  lemma {:induction false} FoldAppend(h: u32, a: seq<bv8>, b: seq<bv8>, signedChar: bool)
    ensures Fold(h, a + b, signedChar) == Fold(Fold(h, a, signedChar), b, signedChar)
    decreases |a|
  {
    if a == [] {
      assert a + b == b;
    } else {
      assert (a + b)[0] == a[0] && (a + b)[1..] == a[1..] + b;
      FoldAppend(Step(h, a[0], signedChar), a[1..], b, signedChar);
    }
  }

  /** The hash of a concatenation continues from the hash of the prefix. */
  lemma HashAppend(a: seq<bv8>, b: seq<bv8>, signedChar: bool)
    ensures Hash(a + b, signedChar) == Fold(Hash(a, signedChar), b, signedChar)
  {
    FoldAppend(OffsetBasis, a, b, signedChar);
  }

  /** Adding `h << k` to a register holding `h * c` gives `h * (c + 2^k)`. */
  lemma AddShl(acc: u32, h: u32, k: nat, c: nat, p: nat)
    requires k < 32 && p == Pow2(k) && acc as int == h as int * c % Modulus
    ensures Add(acc, Shl(h, k)) as int == h as int * (c + p) % Modulus
  {
    AddMod(h as int * c, h as int * p);
    assert h as int * (c + p) == h as int * c + h as int * p;
  }

  /** The five shifted copies of `h` sum to `h * 16777618`. */
  lemma ShiftSum(h: u32)
    ensures Add(Add(Add(Add(Shl(h, 1), Shl(h, 4)), Shl(h, 7)), Shl(h, 8)), Shl(h, 24)) as int
         == h as int * 16777618 % Modulus
  {
    Pow2Values();
    var s1 := Add(Shl(h, 1), Shl(h, 4));
    assert s1 as int == h as int * 18 % Modulus by {
      AddShl(Shl(h, 1), h, 4, 2, 16);
    }
    var s2 := Add(s1, Shl(h, 7));
    assert s2 as int == h as int * 146 % Modulus by {
      AddShl(s1, h, 7, 18, 128);
    }
    var s3 := Add(s2, Shl(h, 8));
    assert s3 as int == h as int * 402 % Modulus by {
      AddShl(s2, h, 8, 146, 256);
    }
    AddShl(s3, h, 24, 402, 0x100_0000);
  }

  /** The disabled form's shift-add is the multiplication by the prime:
      16777619 == 1 + 2 + 16 + 128 + 256 + 2^24. */
  lemma ShiftAddIsMultiply(h: u32)
    ensures Add(h, Add(Add(Add(Add(Shl(h, 1), Shl(h, 4)), Shl(h, 7)), Shl(h, 8)), Shl(h, 24)))
         == Mul(h, Prime)
  {
    var x := h as int;
    var q := x * 16777618;
    var s := Add(Add(Add(Add(Shl(h, 1), Shl(h, 4)), Shl(h, 7)), Shl(h, 8)), Shl(h, 24));
    assert s == (q % Modulus) as u32 by {
      ShiftSum(h);
    }
    assert h == (x % Modulus) as u32 by {
      SmallMod(x);
    }
    AddMod(x, q);
    assert x + q == x * 16777619;
  }

  /** A value already in [0, 2^32) is its own residue. */
  lemma SmallMod(x: int)
    requires 0 <= x < Modulus
    ensures x % Modulus == x
  {
  }

  /** Adding residues modulo 2^32 is adding modulo 2^32. */
  lemma AddMod(p: nat, q: nat)
    ensures Add((p % Modulus) as u32, (q % Modulus) as u32) == ((p + q) % Modulus) as u32
  {
  }

  /** fnv1a_32, compiled form: `hash = hash ^ ch; hash = hash * prime` for each
      byte up to the NUL. */
  method Compute(s: seq<bv8>, signedChar: bool) returns (hash: u32)
    requires Terminated(s)
    ensures hash == Hash(CString(s), signedChar)
  {
    hash := OffsetBasis;
    var i := 0;
    while s[i] != 0
      invariant 0 <= i < |s| && Terminated(s[i..])
      invariant NoNul(s[..i])
      invariant hash == Hash(s[..i], signedChar)
      decreases |s| - i
    {
      var ch := s[i];
      hash := Xor(hash, Widen(ch, signedChar));
      hash := Mul(hash, Prime);
      assert s[..i + 1] == s[..i] + [ch];
      HashAppend(s[..i], [ch], signedChar);
      i := i + 1;
    }
    CStringAt(s, i);
  }

  /** The `#else` statement of fnv1a_32: `hash += (hash << 1) + (hash << 4) +
      (hash << 7) + (hash << 8) + (hash << 24)`, which multiplies by the prime. */
  method ShiftAddMultiply(h: u32) returns (hash: u32)
    ensures hash == Mul(h, Prime)
  {
    var sum := Add(Add(Add(Add(Shl(h, 1), Shl(h, 4)), Shl(h, 7)), Shl(h, 8)), Shl(h, 24));
    hash := Add(h, sum);
    ShiftAddIsMultiply(h);
  }

  /** fnv1a_32, disabled form: the multiplication written as a shift-add. */
  method ComputeShiftAdd(s: seq<bv8>, signedChar: bool) returns (hash: u32)
    requires Terminated(s)
    ensures hash == Hash(CString(s), signedChar)
  {
    hash := OffsetBasis;
    var i := 0;
    while s[i] != 0
      invariant 0 <= i < |s| && Terminated(s[i..])
      invariant NoNul(s[..i])
      invariant hash == Hash(s[..i], signedChar)
      decreases |s| - i
    {
      var ch := s[i];
      hash := Xor(hash, Widen(ch, signedChar));
      hash := ShiftAddMultiply(hash);
      assert s[..i + 1] == s[..i] + [ch];
      HashAppend(s[..i], [ch], signedChar);
      i := i + 1;
    }
    CStringAt(s, i);
  }
}
