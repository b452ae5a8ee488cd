/** The 32 by 32 bit multiplies of sw/board/cputest.c, which a CPU test holds the hardware to. */
module SoftMultiply {
  import opened Bits
  import opened MachineInts

  /** The number three limbs stand for. */
  function Limbs(high: nat, middle: nat, low: nat): nat {
    high * 0x1_0000_0000 + middle * 0x1_0000 + low
  }

  /** b & (1 << i). */
  predicate Has(b: nat, i: nat) {
    b / Pow2(i) % 2 == 1
  }

  /** Of b's low bits, one more. */
  lemma LowBits(b: nat, i: nat)
    ensures b % Pow2(i + 1) == b % Pow2(i) + (if Has(b, i) then Pow2(i) else 0)
  {
    var p, q, bit := Pow2(i), b / Pow2(i) / 2, b / Pow2(i) % 2;
    assert b == (2 * q + bit) * p + b % p;
    assert (2 * q + bit) * p == q * (2 * p) + bit * p;
    DivModUnique(b, 2 * p, q, bit * p + b % p);
  }

  lemma ShiftBound(n: nat, i: nat)
    requires n < 0x1_0000 && i < 16
    ensures n * Pow2(i) < 0x1_0000 * Pow2(i) <= 0x8000_0000
  {
    Pow2Monotonic(i, 15);
    assert Pow2(15) == 0x8000;
    MulStrict(n, 0x1_0000, Pow2(i));
  }

  lemma Distribute(hi: nat, lo: nat, p: nat)
    ensures (hi * 0x1_0000 + lo) * p == 0x1_0000 * (hi * p) + lo * p
  {
  }

  /** The limbs of a sum of shifted halves. */
  lemma Split(x: nat, y: nat, slo: nat, shi: nat, sup: nat)
    requires y + x / 0x1_0000 < 0x1_0000_0000
    requires slo == x % 0x1_0000 && shi == (y + x / 0x1_0000) % 0x1_0000 && sup == (y + x / 0x1_0000) / 0x1_0000
    ensures sup < 0x1_0000 && Limbs(sup, shi, slo) == 0x1_0000 * y + x
  {
  }

  /** n << i, with nothing shifted out. */
  function Shl(n: nat, i: nat): nat {
    n * Pow2(i)
  }

  /** The two halves of a number, shifted: the carry of the low one fits in the space that the
      high one leaves. */
  lemma HalvesShifted(alo: nat, ahi: nat, i: nat)
    requires alo < 0x1_0000 && ahi < 0x1_0000 && i < 16
    ensures Shl(alo, i) < 0x8000_0000 && Shl(ahi, i) < 0x8000_0000
    ensures Or(Shl(ahi, i), Shl(alo, i) / 0x1_0000) == Shl(ahi, i) + Shl(alo, i) / 0x1_0000
    ensures Shl(ahi * 0x1_0000 + alo, i) == 0x1_0000 * Shl(ahi, i) + Shl(alo, i)
  {
    hide Or, Pow2;
    ShiftBound(alo, i);
    ShiftBound(ahi, i);
    OrDisjoint(ahi, Shl(alo, i) / 0x1_0000, i);
    Distribute(ahi, alo, Pow2(i));
  }

  /** `a`, in two halves, shifted left and split into limbs.  Nothing is shifted out. */
  method Spread(alo: uint32, ahi: uint32, i: nat) returns (slo: uint32, shi: uint32, sup: uint32)
    requires alo < 0x1_0000 && ahi < 0x1_0000 && i < 16
    ensures slo < 0x1_0000 && shi < 0x1_0000 && sup < 0x1_0000
    ensures Limbs(sup, shi, slo) == Shl(ahi * 0x1_0000 + alo, i)
  {
    hide Limbs, Shl, Or;
    HalvesShifted(alo, ahi, i);
    ghost var x, y := Shl(alo, i), Shl(ahi, i);
    slo := Shl(alo, i);
    shi := Shl(ahi, i);
    shi := Or(shi, slo / 0x1_0000 % 0x1_0000);
    slo := slo % 0x1_0000;
    sup := shi / 0x1_0000 % 0x1_0000;
    shi := shi % 0x1_0000;
    Split(x, y, slo, shi, sup);
  }

  lemma Carry(n: nat, most: nat)
    requires n < 0x1_0000 * most
    ensures n == 0x1_0000 * (n / 0x1_0000) + n % 0x1_0000 && n / 0x1_0000 < most && n % 0x1_0000 < 0x1_0000
  {
  }

  /** Limb by limb, with the carries. */
  lemma LimbsAdd(rhi: nat, rlhi: nat, rllo: nat, sup: nat, shi: nat, slo: nat)
    requires rlhi < 0x1_0000 && rllo < 0x1_0000 && shi < 0x1_0000 && slo < 0x1_0000
    requires Limbs(rhi, rlhi, rllo) + Limbs(sup, shi, slo) < 0x1_0000_0000_0000_0000
    ensures var low := rllo + slo; var middle := rlhi + shi + low / 0x1_0000;
      var high := rhi + sup + middle / 0x1_0000;
      && low / 0x1_0000 < 2 && middle / 0x1_0000 < 2 && high < 0x1_0000_0000
      && Limbs(high, middle % 0x1_0000, low % 0x1_0000) == Limbs(rhi, rlhi, rllo) + Limbs(sup, shi, slo)
  {
    var low := rllo + slo;
    Carry(low, 2);
    var carry := low / 0x1_0000;
    var middle := rlhi + shi + carry;
    Carry(middle, 2);
    Regrouped(rhi + sup, rlhi + shi, low, carry, low % 0x1_0000, middle / 0x1_0000, middle % 0x1_0000);
  }

  lemma Regrouped(high: nat, middle: nat, low: nat, c: nat, l: nat, d: nat, m: nat)
    requires low == 0x1_0000 * c + l && middle + c == 0x1_0000 * d + m
    ensures Limbs(high + d, m, l) == Limbs(high, middle, low)
  {
  }

  /** The carries of the first loop, none of which overflows. */
  method AddLow(rhi: uint32, rlhi: uint32, rllo: uint32, sup: uint32, shi: uint32, slo: uint32)
    returns (rhi': uint32, rlhi': uint32, rllo': uint32)
    requires rlhi < 0x1_0000 && rllo < 0x1_0000 && shi < 0x1_0000 && slo < 0x1_0000
    requires Limbs(rhi, rlhi, rllo) + Limbs(sup, shi, slo) < 0x1_0000_0000_0000_0000
    ensures rlhi' < 0x1_0000 && rllo' < 0x1_0000
    ensures Limbs(rhi', rlhi', rllo') == Limbs(rhi, rlhi, rllo) + Limbs(sup, shi, slo)
  {
    LimbsAdd(rhi, rlhi, rllo, sup, shi, slo);
    hide Limbs;
    rhi', rlhi', rllo' := rhi + sup, rlhi + shi, rllo + slo;
    rlhi' := rlhi' + rllo' / 0x1_0000 % 0x1_0000;
    rllo' := rllo' % 0x1_0000;
    rhi' := rhi' + rlhi' / 0x1_0000 % 0x1_0000;
    rlhi' := rlhi' % 0x1_0000;
  }

  /** The carries of the second loop, 16 bits further up. */
  method AddHigh(rhi: uint32, rlhi: uint32, rllo: uint32, sup: uint32, shi: uint32, slo: uint32)
    returns (rhi': uint32, rlhi': uint32)
    requires rlhi < 0x1_0000 && rllo < 0x1_0000 && sup < 0x1_0000 && shi < 0x1_0000 && slo < 0x1_0000
    requires Limbs(rhi, rlhi, rllo) + Limbs(sup, shi, slo) * 0x1_0000 < 0x1_0000_0000_0000_0000
    ensures rlhi' < 0x1_0000
    ensures Limbs(rhi', rlhi', rllo) == Limbs(rhi, rlhi, rllo) + Limbs(sup, shi, slo) * 0x1_0000
  {
    rhi' := rhi + sup * 0x1_0000;
    rhi' := rhi' + shi;
    rlhi' := rlhi + slo;
    Carry(rlhi', 2);
    rhi' := rhi' + rlhi' / 0x1_0000 % 0x1_0000;
    rlhi' := rlhi' % 0x1_0000;
  }

  lemma ProductBound(a: uint32, b: uint32, part: nat)
    requires part <= b
    ensures a * part < 0x1_0000_0000_0000_0000
  {
    MulMonotonic(a, 0x1_0000_0000, part);
  }

  lemma AddProduct(a: nat, x: nat, y: nat)
    ensures a * (x + y) == a * x + a * y
  {
  }

  /** The product with b's low bits. */
  function Partial(a: nat, b: nat, i: nat): nat {
    a * (b % Pow2(i))
  }

  /** One more partial product. */
  lemma OneMoreBit(a: uint32, b: uint32, i: nat)
    ensures Partial(a, b, i + 1) == Partial(a, b, i) + (if Has(b, i) then Shl(a, i) else 0)
    ensures Partial(a, b, i + 1) < 0x1_0000_0000_0000_0000
  {
    hide Has, Pow2;
    LowBits(b, i);
    ModAtMost(b, Pow2(i + 1));
    ProductBound(a, b, b % Pow2(i + 1));
    AddProduct(a, b % Pow2(i), Pow2(i));
  }

  lemma ModAtMost(n: nat, d: nat)
    requires 0 < d
    ensures n % d <= n
  {
    if n < d {
      DivModUnique(n, d, 0, n);
    }
  }

  /** The high word of the unsigned product. */
  method SoftMpyUhi(a: uint32, b: uint32) returns (rhi: uint32)
    ensures rhi == a * b / 0x1_0000_0000
  {
    hide Has, Limbs, Shl, Partial;
    var alo: uint32, ahi: uint32 := a % 0x1_0000, a / 0x1_0000 % 0x1_0000;
    assert a == ahi * 0x1_0000 + alo;
    var rlhi: uint32, rllo: uint32 := 0, 0;
    rhi := 0;
    var i := 0;
    Nothing(a, b);
    while i < 16
      invariant 0 <= i <= 16 && rlhi < 0x1_0000 && rllo < 0x1_0000
      invariant Limbs(rhi, rlhi, rllo) == Partial(a, b, i)
    {
      OneMoreBit(a, b, i);
      if Has(b, i) {
        var slo, shi, sup := Spread(alo, ahi, i);
        rhi, rlhi, rllo := AddLow(rhi, rlhi, rllo, sup, shi, slo);
      }
      i := i + 1;
    }
    while i < 32
      invariant 16 <= i <= 32 && rlhi < 0x1_0000 && rllo < 0x1_0000
      invariant Limbs(rhi, rlhi, rllo) == Partial(a, b, i)
    {
      OneMoreBit(a, b, i);
      if Has(b, i) {
        var slo, shi, sup := Spread(alo, ahi, i - 16);
        HighBit(a, i);
        rhi, rlhi := AddHigh(rhi, rlhi, rllo, sup, shi, slo);
      }
      i := i + 1;
    }
    AllBits(a, b, rhi, rlhi, rllo);
  }

  lemma Nothing(a: uint32, b: uint32)
    ensures Limbs(0, 0, 0) == Partial(a, b, 0)
  {
    assert b % 1 == 0;
    assert Pow2(0) == 1;
  }

  lemma HighBit(a: uint32, i: nat)
    requires 16 <= i
    ensures Shl(a, i - 16) * 0x1_0000 == Shl(a, i)
  {
    Pow2Add(i - 16, 16);
    Pow2Constants();
    assert a * Pow2(i - 16) * 0x1_0000 == a * (Pow2(i - 16) * 0x1_0000);
  }

  lemma AllBits(a: uint32, b: uint32, rhi: nat, rlhi: nat, rllo: nat)
    requires rlhi < 0x1_0000 && rllo < 0x1_0000 && Limbs(rhi, rlhi, rllo) == Partial(a, b, 32)
    ensures rhi == a * b / 0x1_0000_0000
  {
    Pow2Constants();
    DivModUnique(a * b, 0x1_0000_0000, rhi, rlhi * 0x1_0000 + rllo);
  }

  // ---- The signed product ------------------------------------------------------------------

  /** Negation in 32 bits, which leaves the most negative number alone, and the conversion to
      unsigned, give the magnitude all the same. */
  lemma MagnitudeIs(a: int32)
    ensures var a': int := if a < 0 then Int32(-(a as int)) else a; a' % 0x1_0000_0000 == Magnitude(a) < 0x1_0000_0000
  {
  }

  lemma ModProduct(x: int, y: int, m: nat, n: nat)
    requires x % 0x1_0000_0000 == m && y % 0x1_0000_0000 == n
    ensures x * y % 0x1_0000_0000 == m * n % 0x1_0000_0000
  {
    var i, j := x / 0x1_0000_0000, y / 0x1_0000_0000;
    var q, r := m * n / 0x1_0000_0000, m * n % 0x1_0000_0000;
    var k := i * j * 0x1_0000_0000 + i * n + m * j;
    assert x * y == (i * 0x1_0000_0000 + m) * (j * 0x1_0000_0000 + n);
    assert (i * 0x1_0000_0000 + m) * (j * 0x1_0000_0000 + n) == k * 0x1_0000_0000 + m * n;
    DivModUnique(x * y, 0x1_0000_0000, k + q, r);
  }

  /** Complementing the high word negates the product, but for the carry out of a low word that
      is zero. */
  lemma HighOfNegative(n: int, m: int)
    requires 0 <= n <= 0x4000_0000_0000_0000 && m == n / 0x1_0000_0000
    ensures -n / 0x1_0000_0000 == (if n % 0x1_0000_0000 == 0 then -m else -m - 1)
  {
    var low := n % 0x1_0000_0000;
    if low == 0 {
      DivModUnique(-n, 0x1_0000_0000, -m, 0);
    } else {
      DivModUnique(-n, 0x1_0000_0000, -m - 1, 0x1_0000_0000 - low);
    }
  }

  lemma Signs(m: int, n: int)
    ensures -m * n == -(m * n) && m * -n == -(m * n) && -m * -n == m * n
  {
  }

  lemma MagnitudeProduct(a: int32, b: int32)
    ensures a * b == if (a < 0) != (b < 0) then -(Magnitude(a) * Magnitude(b)) else Magnitude(a) * Magnitude(b)
    ensures Magnitude(a) * Magnitude(b) <= 0x4000_0000_0000_0000
  {
    Signs(Magnitude(a), Magnitude(b));
    MulMonotonic(Magnitude(a), 0x8000_0000, Magnitude(b));
  }

  /** The high word of a product of magnitudes, given the product's sign. */
  lemma SignedHigh(n: nat, negative: bool, high: uint32, u: uint32)
    requires n <= 0x4000_0000_0000_0000 && high == n / 0x1_0000_0000
    requires u == if !negative then high
      else if n % 0x1_0000_0000 == 0 then (0x1_0000_0000 - high) % 0x1_0000_0000
      else 0x1_0000_0000 - 1 - high
    ensures Int32(u) == (if negative then -(n as int) else n) / 0x1_0000_0000
  {
    HighOfNegative(n, high);
    SignedWord(u, if negative then -(n as int) / 0x1_0000_0000 else n / 0x1_0000_0000);
  }

  lemma SignedWord(u: uint32, high: int)
    requires -0x8000_0000 <= high < 0x8000_0000 && (u == high || u == high + 0x1_0000_0000)
    ensures Int32(u) == high
  {
  }

  /** The high word of the signed product, for all operands. */
  method SoftMpyShi(a: int32, b: int32) returns (r: int32)
    ensures r == a * b / 0x1_0000_0000
  {
    hide Int32, Magnitude;
    var sgn := (a < 0) != (b < 0);
    var a': int32, b': int32 := if a < 0 then Int32(-(a as int)) else a, if b < 0 then Int32(-(b as int)) else b;
    MagnitudeIs(a);
    MagnitudeIs(b);
    MagnitudeProduct(a, b);
    ModProduct(a', b', Magnitude(a), Magnitude(b));
    var p: uint32 := a' * b' % 0x1_0000_0000;
    var u := SoftMpyUhi(a' % 0x1_0000_0000, b' % 0x1_0000_0000);
    ghost var high := u;
    u := if sgn then 0x1_0000_0000 - 1 - u else u;
    if sgn && p == 0 {
      u := (u as int + 1) % 0x1_0000_0000;
    }
    r := Int32(u);
    SignedHigh(Magnitude(a) * Magnitude(b), sgn, high, u);
  }
}
