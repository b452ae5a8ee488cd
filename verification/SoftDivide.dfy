/** 64-bit division in software: sw/zlib/udiv.c and sw/zlib/umod.c. */
module SoftDivide {
  import opened Bits
  import opened MachineInts

  // ---- Bit reversal -------------------------------------------------------------------------

  function Reversed(s: seq<bool>): (r: seq<bool>)
    ensures |r| == |s|
  {
    if |s| == 0 then [] else Reversed(s[1..]) + [s[0]]
  }

  lemma {:induction false} ReversedAt(s: seq<bool>, k: nat)
    requires k < |s|
    ensures Reversed(s)[k] == s[|s| - 1 - k]
  {
    if k < |s| - 1 {
      ReversedAt(s[1..], k);
    }
  }

  lemma {:induction false} NextBit(n: nat, width: nat)
    ensures BitsOf(n, width + 1) == [Bit(n, width)] + BitsOf(n, width)
  {
    if width == 0 {
    } else {
      NextBit(n / 2, width - 1);
    }
  }

  /** zip_bitrev(). */
  method BitRev(a: uint32) returns (r: uint32)
    ensures BitsOf(r, 32) == Reversed(BitsOf(a, 32))
  {
    hide Or, Val, Pow2, BitsOf;
    var b: uint32 := a;
    r := 0;
    var i := 0;
    NoBits(a);
    while i < 32
      invariant 0 <= i <= 32
      invariant r == Val(Reversed(BitsOf(a, i)))
      invariant forall k: nat :: Bit(b, k) == Bit(a, i + k)
    {
      assert Bit(b, 0) == Bit(a, i + 0);
      RevStep(a, i, r, b % 2);
      r := Or(2 * r, b % 2);
      forall k: nat
        ensures Bit(b / 2, k) == Bit(a, i + 1 + k)
      {
        assert Bit(b, k + 1) == Bit(a, i + (k + 1));
      }
      b := b / 2;
      i := i + 1;
    }
    BitsOfVal(Reversed(BitsOf(a, 32)));
  }

  lemma NoBits(a: nat)
    ensures Val(Reversed(BitsOf(a, 0))) == 0
  {
  }

  lemma RevStep(a: nat, i: nat, r: nat, bit: nat)
    requires i < 32 && r == Val(Reversed(BitsOf(a, i))) && bit == if Bit(a, i) then 1 else 0
    ensures 2 * r < 0x1_0000_0000
    ensures Or(2 * r, bit) == Val(Reversed(BitsOf(a, i + 1))) < 0x1_0000_0000
  {
    hide Or, Bit, BitsOf;
    NextBit(a, i);
    var low := Reversed(BitsOf(a, i));
    var next := Reversed(BitsOf(a, i + 1));
    assert BitsOf(a, i + 1)[1..] == BitsOf(a, i);
    assert next == low + [Bit(a, i)];
    assert next[..|next| - 1] == low;
    assert Pow2(1) == 2;
    OrDisjoint(r, bit, 1);
    ValBound(low);
    Pow2Monotonic(i, 31);
    Pow2Constants();
  }

  // ---- Counting leading zeros ---------------------------------------------------------------

  function TrailingZeros(n: nat): nat
    requires n > 0
  {
    if n % 2 == 1 then 0 else 1 + TrailingZeros(n / 2)
  }

  lemma {:induction false} TrailingBits(n: nat, width: nat)
    requires 0 < n < Pow2(width)
    ensures var t, bits := TrailingZeros(n), BitsOf(n, width);
      t < width && bits[width - 1 - t] && forall i :: width - t <= i < width ==> !bits[i]
  {
    if n % 2 == 0 {
      TrailingBits(n / 2, width - 1);
    }
  }

  /** A number with `c` leading zeros. */
  lemma {:induction false} LeadingBits(bits: seq<bool>, c: nat)
    requires c < |bits| && bits[c] && forall i :: 0 <= i < c ==> !bits[i]
    ensures Pow2(|bits| - 1 - c) <= Val(bits) < Pow2(|bits| - c)
  {
    var front := bits[..|bits| - 1];
    if c == |bits| - 1 {
      AllFalse(front);
    } else {
      LeadingBits(front, c);
    }
  }

  lemma {:induction false} AllFalse(bits: seq<bool>)
    requires forall i :: 0 <= i < |bits| ==> !bits[i]
    ensures Val(bits) == 0
  {
    if |bits| == 0 {
    } else {
      AllFalse(bits[..|bits| - 1]);
    }
  }

  lemma {:induction false} TrailingShift(n: nat, k: nat)
    requires n > 0 && n % Pow2(k) == 0
    ensures n / Pow2(k) > 0 && TrailingZeros(n) == k + TrailingZeros(n / Pow2(k))
  {
    if k == 0 {
    } else {
      var p := Pow2(k - 1);
      HalfOfMod(n, p);
      assert n % 2 == 0 && (n / 2) % p == 0;
      TrailingShift(n / 2, k - 1);
      DivTwice(n, p);
    }
  }

  lemma DivTwice(n: nat, p: nat)
    requires 0 < p
    ensures n / (2 * p) == n / 2 / p
  {
    var q, r := n / 2 / p, n / 2 % p;
    assert n / 2 == q * p + r;
    assert n == q * (2 * p) + (2 * r + n % 2);
    DivModUnique(n, 2 * p, q, 2 * r + n % 2);
  }

  lemma Upper(h: nat, p: nat)
    requires 0 < p && h % p == 0 && h / p % p == 0
    ensures h % (p * p) == 0
  {
    var q := h / p / p;
    assert h / p == q * p;
    Regroup(q, p);
    DivModUnique(h, p * p, q, 0);
  }

  lemma Regroup(q: nat, p: nat)
    ensures q * p * p == q * (p * p)
  {
  }

  /** One step of the count: if the lower of the two halves of `h` is zero, the upper is not. */
  lemma Halve(h: nat, k: nat)
    requires h > 0 && h % (Pow2(k) * Pow2(k)) != 0 && h % Pow2(k) == 0
    ensures TrailingZeros(h) == k + TrailingZeros(h / Pow2(k)) && h / Pow2(k) % Pow2(k) != 0
  {
    hide Pow2, TrailingZeros;
    TrailingShift(h, k);
    if h / Pow2(k) % Pow2(k) == 0 {
      Upper(h, Pow2(k));
    }
  }

  /** cltz(): for zero, one less than the width. */
  method Cltz(v: uint64) returns (cnt: nat)
    ensures cnt < 64
    ensures v > 0 ==> Pow2(63 - cnt) <= v < Pow2(64 - cnt)
    ensures v == 0 ==> cnt == 63
  {
    hide TrailingZeros, Pow2, BitsOf, Reversed;
    cnt := 0;
    var hv: uint32 := v / 0x1_0000_0000;
    if hv == 0 {
      cnt := cnt + 32;
      hv := v % 0x1_0000_0000;
    }
    ghost var word, start := hv, cnt;
    hv := BitRev(hv);
    Reflect(word, hv);
    var zeros := CountTrailing(hv);
    cnt := cnt + zeros;
    if v > 0 {
      Position(v, word, start, zeros);
    }
  }

  /** `cnt` zeros have been shifted off `h`, and of the `width` bits that are left in `hv` not all
      are zero, unless all of `h` is. */
  predicate Counted(h: nat, cnt: nat, hv: nat, width: nat) {
    if h > 0 then hv > 0 && hv % Pow2(width) != 0 && TrailingZeros(h) == cnt + TrailingZeros(hv)
    else hv == 0 && cnt + width == 32
  }

  lemma HalfCounted(h: nat, cnt: nat, hv: nat, k: nat)
    requires Counted(h, cnt, hv, 2 * k)
    ensures if hv % Pow2(k) == 0 then Counted(h, cnt + k, hv / Pow2(k), k) else Counted(h, cnt, hv, k)
  {
    hide TrailingZeros, Pow2;
    Pow2Add(k, k);
    if h > 0 && hv % Pow2(k) == 0 {
      Halve(hv, k);
    }
  }

  lemma NoneCounted(h: uint32)
    ensures Counted(h, 0, h, 32)
  {
    Pow2Constants();
  }

  lemma AllCounted(h: nat, cnt: nat, hv: nat)
    requires Counted(h, cnt, hv, 2)
    ensures h > 0 ==> cnt + (if hv % 2 == 0 then 1 else 0) == TrailingZeros(h)
    ensures h == 0 ==> hv % 2 == 0 && cnt == 30
  {
    Sizes();
    hide Pow2;
    if h > 0 {
      LastBit(hv);
    }
  }

  /** The 32-bit part of cltz(). */
  method CountTrailing(h: uint32) returns (cnt: nat)
    ensures h > 0 ==> cnt == TrailingZeros(h)
    ensures h == 0 ==> cnt == 31
  {
    hide TrailingZeros, Pow2, Counted;
    Sizes();
    cnt := 0;
    var hv: uint32 := h;
    NoneCounted(h);
    HalfCounted(h, cnt, hv, 16);
    if hv % 0x1_0000 == 0 {
      cnt := cnt + 16;
      hv := hv / 0x1_0000;
    }
    HalfCounted(h, cnt, hv, 8);
    if hv % 0x100 == 0 {
      cnt := cnt + 8;
      hv := hv / 0x100;
    }
    HalfCounted(h, cnt, hv, 4);
    if hv % 0x10 == 0 {
      cnt := cnt + 4;
      hv := hv / 0x10;
    }
    HalfCounted(h, cnt, hv, 2);
    if hv % 4 == 0 {
      cnt := cnt + 2;
      hv := hv / 4;
    }
    AllCounted(h, cnt, hv);
    if hv % 2 == 0 {
      cnt := cnt + 1;
    }
  }

  lemma Sizes()
    ensures Pow2(16) == 0x1_0000 && Pow2(8) == 0x100 && Pow2(4) == 0x10 && Pow2(2) == 4
  {
    Pow2Constants();
    SmallPowers();
    assert Pow2(2) == 4;
  }

  lemma LastBit(h: nat)
    requires h % 4 != 0
    ensures h > 0 && TrailingZeros(h) == if h % 2 == 0 then 1 else 0
  {
    if h % 2 == 0 {
      assert h / 2 % 2 == 1;
    }
  }

  predicate Mirror(back: seq<bool>, bits: seq<bool>) {
    |back| == |bits| == 32 && forall k :: 0 <= k < 32 ==> bits[k] == back[31 - k]
  }

  lemma ReversedMirrors(bits: seq<bool>)
    requires |bits| == 32
    ensures Mirror(Reversed(bits), bits)
  {
    forall k | 0 <= k < 32
      ensures bits[k] == Reversed(bits)[31 - k]
    {
      ReversedAt(bits, 31 - k);
    }
  }

  lemma MirrorLeads(back: seq<bool>, bits: seq<bool>, c: nat)
    requires Mirror(back, bits) && c < 32 && back[31 - c] && forall i :: 32 - c <= i < 32 ==> !back[i]
    ensures Pow2(31 - c) <= Val(bits) < Pow2(32 - c)
  {
    assert bits[c];
    LeadingBits(bits, c);
  }

  /** Trailing zeros of the reversed word are leading zeros of the word. */
  lemma Reflect(word: uint32, rev: uint32)
    requires BitsOf(rev, 32) == Reversed(BitsOf(word, 32))
    ensures word > 0 ==> rev > 0
    ensures rev > 0 ==> var c := TrailingZeros(rev); c < 32 && Pow2(31 - c) <= word < Pow2(32 - c)
  {
    hide TrailingZeros, BitsOf, Reversed, Mirror, Val, Pow2;
    Pow2Constants();
    ValOfBits(word, 32);
    ValOfBits(rev, 32);
    var bits, back := BitsOf(word, 32), BitsOf(rev, 32);
    ReversedMirrors(bits);
    if rev > 0 {
      TrailingBits(rev, 32);
      MirrorLeads(back, bits, TrailingZeros(rev));
    } else {
      ZeroBits(back, bits);
    }
  }

  lemma ZeroBits(back: seq<bool>, bits: seq<bool>)
    requires Mirror(back, bits) && Val(back) == 0
    ensures Val(bits) == 0
  {
    NoneSet(back);
    AllFalse(bits);
  }

  lemma {:induction false} NoneSet(bits: seq<bool>)
    requires Val(bits) == 0
    ensures forall i :: 0 <= i < |bits| ==> !bits[i]
  {
    if |bits| == 0 {
    } else {
      NoneSet(bits[..|bits| - 1]);
    }
  }

  /** From the word that holds the leading one to the whole number. */
  lemma Position(v: uint64, word: uint32, start: nat, c: nat)
    requires v > 0 && c < 32 && Pow2(31 - c) <= word < Pow2(32 - c)
    requires if v / 0x1_0000_0000 == 0 then start == 32 && word == v else start == 0 && word == v / 0x1_0000_0000
    ensures Pow2(63 - (start + c)) <= v < Pow2(64 - (start + c))
  {
    if start == 0 {
      Pow2Constants();
      Pow2Add(31 - c, 32);
      Pow2Add(32 - c, 32);
    }
  }

  // ---- Unsigned division ----------------------------------------------------------------------

  /** Normalizing shifts lose nothing. */
  lemma ShiftFits(v: nat, c: nat)
    requires c < 64 && Pow2(63 - c) <= v < Pow2(64 - c)
    ensures 0x8000_0000_0000_0000 <= v * Pow2(c) < 0x1_0000_0000_0000_0000
  {
    Pow2Constants();
    Pow2Add(63 - c, c);
    Pow2Add(64 - c, c);
    MulMonotonic(Pow2(63 - c), v, Pow2(c));
    MulStrict(v, Pow2(64 - c), Pow2(c));
  }

  /** The larger number has no more leading zeros. */
  lemma Leads(a: nat, b: nat, la: nat, lb: nat)
    requires la < 64 && lb < 64 && b <= a < Pow2(64 - la) && Pow2(63 - lb) <= b
    ensures la <= lb
  {
    if lb < la {
      Pow2Monotonic(64 - la, 63 - lb);
    }
  }

  /** Scaling both by the same amount leaves the quotient alone. */
  lemma ScaledQuotient(a: nat, b: nat, p: nat)
    requires 0 < b && 0 < p
    ensures 0 < b * p && a * p / (b * p) == a / b
  {
    var q, r := a / b, a % b;
    assert a == q * b + r;
    assert (q * b + r) * p == q * (b * p) + r * p;
    MulStrict(0, b, p);
    MulStrict(r, b, p);
    DivModUnique(a * p, b * p, q, r * p);
  }

  /** A divisor whose low word is zero needs only the high words. */
  lemma HighWords(a: nat, b: nat)
    requires 0 < b && b % 0x1_0000_0000 == 0
    ensures 0 < b / 0x1_0000_0000 && a / 0x1_0000_0000 / (b / 0x1_0000_0000) == a / b
  {
    var c, high, t := b / 0x1_0000_0000, a / 0x1_0000_0000, a % 0x1_0000_0000;
    var q, r := high / c, high % c;
    assert high == q * c + r;
    assert q * b == 0x1_0000_0000 * (q * c);
    DivModUnique(a, b, q, r * 0x1_0000_0000 + t);
  }

  lemma Twice(high: nat, k: nat)
    ensures high * Pow2(k + 1) == 2 * high * Pow2(k) && Pow2(k) < Pow2(k + 1)
  {
    MulAssociative(high, 2, Pow2(k));
  }

  /** `n` divided by `d` down to the quotient's bit k + 1: `r` is the quotient so far, `a` what
      remains, and `b` the divisor at bit k. */
  predicate Dividing(n: nat, d: nat, a: nat, b: nat, r: nat, high: nat, k: int)
    requires -1 <= k
  {
    && n == a + r * d && r == high * Pow2(k + 1)
    && if k >= 0 then b == d * Pow2(k) && a < 2 * b else a < d
  }

  /** The remainder holds the divisor, and takes it out. */
  lemma TakeBit(n: nat, d: nat, a: nat, b: nat, r: nat, high: nat, k: nat)
    requires 0 < d && Dividing(n, d, a, b, r, high, k) && a >= b
    ensures Or(r, Pow2(k)) <= n
    ensures Dividing(n, d, a - b, b / 2, Or(r, Pow2(k)), 2 * high + 1, k - 1)
  {
    hide Pow2, Or;
    OrBit(r, high, k);
    HalveDivisor(d, k);
    TakeOut(n, d, a, r, Pow2(k));
  }

  lemma OrBit(r: nat, high: nat, k: nat)
    requires r == high * Pow2(k + 1)
    ensures Or(r, Pow2(k)) == r + Pow2(k) == (2 * high + 1) * Pow2(k)
  {
    hide Pow2, Or;
    Twice(high, k);
    OrDisjoint(high, Pow2(k), k + 1);
    MulAdd(2 * high, 1, Pow2(k));
  }

  lemma TakeOut(n: nat, d: nat, a: nat, r: nat, p: nat)
    requires 0 < d && n == a + r * d && a >= d * p
    ensures n == a - d * p + (r + p) * d && r + p <= n
  {
    MulAdd(r, p, d);
    MulMonotonic(1, d, r + p);
  }

  /** It does not. */
  lemma SkipBit(n: nat, d: nat, a: nat, b: nat, r: nat, high: nat, k: nat)
    requires Dividing(n, d, a, b, r, high, k) && a < b
    ensures Dividing(n, d, a, b / 2, r, 2 * high, k - 1)
  {
    hide Pow2;
    Twice(high, k);
    HalveDivisor(d, k);
  }

  lemma HalveDivisor(d: nat, k: nat)
    ensures k > 0 ==> d * Pow2(k) / 2 == d * Pow2(k - 1) && 2 * (d * Pow2(k - 1)) == d * Pow2(k)
    ensures k == 0 ==> d * Pow2(k) == d
  {
    if k > 0 {
      assert d * (2 * Pow2(k - 1)) == 2 * (d * Pow2(k - 1));
    }
  }

  lemma DividingEnds(n: nat, d: nat, a: nat, b: nat, r: nat, high: nat)
    requires Dividing(n, d, a, b, r, high, -1)
    ensures r == n / d
  {
    DivModUnique(n, d, r, a);
  }

  lemma DividingStarts(n: nat, d: nat, b: nat, k: nat)
    requires b == d * Pow2(k) && n < 2 * b
    ensures Dividing(n, d, n, b, 0, 0, k)
  {
  }

  /** The mask that walks down the quotient's bits. */
  function Mask(k: int): nat {
    if k < 0 then 0 else Pow2(k)
  }

  lemma MaskHalves(k: int)
    requires -1 <= k < 64
    ensures Mask(k) > 0 <==> k >= 0
    ensures k >= 0 ==> Mask(k) / 2 == Mask(k - 1) && Mask(k) == Pow2(k) < 0x1_0000_0000_0000_0000
  {
    if k >= 0 {
      Pow2Monotonic(k, 63);
      Pow2Constants();
    }
  }

  /** The shift and subtract loop, on a normalized dividend and divisor. */
  method ShiftSubtract(a0: uint64, b0: uint64, ghost d: nat, places: nat) returns (r: uint64)
    requires 0 < d && b0 == d * Pow2(places) && a0 < 2 * b0 && places < 64
    ensures r == a0 / d
  {
    hide Pow2, Or, Mask, Dividing;
    var a: uint64, b: uint64 := a0, b0;
    MaskHalves(places);
    var m: uint64 := Pow2(places);
    r := 0;
    ghost var k: int, high: nat := places, 0;
    DividingStarts(a0, d, b0, places);
    while m > 0
      invariant -1 <= k <= places && m == Mask(k)
      invariant Dividing(a0, d, a, b, r, high, k)
      decreases k
    {
      MaskHalves(k);
      if a >= b {
        TakeBit(a0, d, a, b, r, high, k);
        high := 2 * high + 1;
        r := Or(r, m);
        a := a - b;
      } else {
        SkipBit(a0, d, a, b, r, high, k);
        high := 2 * high;
      }
      m := m / 2;
      b := b / 2;
      k := k - 1;
    }
    MaskHalves(k);
    DividingEnds(a0, d, a, b, r, high);
  }

  /** __udivdi3(). */
  method UDiv(a: uint64, b: uint64) returns (r: uint64)
    requires b != 0
    ensures r == a / b
  {
    hide Pow2;
    if a < b {
      DivModUnique(a, b, 0, a);
      return 0;
    }
    if b / 0x1_0000_0000 == 0 && a / 0x1_0000_0000 == 0 {
      var ia: uint32, ib: uint32 := a, b;
      return ia / ib;
    }
    var la := Cltz(a);
    var lb := Cltz(b);
    Normalized(a, b, la, lb);
    var a': uint64 := a * Pow2(la) % 0x1_0000_0000_0000_0000;
    var b': uint64 := b * Pow2(la) % 0x1_0000_0000_0000_0000;
    if lb - la < 32 && b' % 0x1_0000_0000 == 0 {
      HighWords(a', b');
      var ia: uint32, ib: uint32 := a' / 0x1_0000_0000, b' / 0x1_0000_0000;
      return ia / ib;
    } else {
      Rescale(b, la, lb);
      r := ShiftSubtract(a', b * Pow2(lb) % 0x1_0000_0000_0000_0000, b', lb - la);
    }
  }

  lemma NoWrap(n: nat)
    requires n < 0x1_0000_0000_0000_0000
    ensures n % 0x1_0000_0000_0000_0000 == n
  {
  }

  /** What the two counts of leading zeros are good for. */
  lemma Normalized(a: uint64, b: uint64, la: nat, lb: nat)
    requires 0 < b <= a && la < 64 && lb < 64
    requires Pow2(63 - la) <= a < Pow2(64 - la) && Pow2(63 - lb) <= b < Pow2(64 - lb)
    ensures la <= lb
    ensures a * Pow2(la) % 0x1_0000_0000_0000_0000 == a * Pow2(la)
    ensures b * Pow2(la) % 0x1_0000_0000_0000_0000 == b * Pow2(la)
    ensures b * Pow2(lb) % 0x1_0000_0000_0000_0000 == b * Pow2(lb)
    ensures 0 < b * Pow2(la) && a * Pow2(la) / (b * Pow2(la)) == a / b
    ensures a * Pow2(la) < 2 * (b * Pow2(lb))
  {
    hide Pow2;
    Leads(a, b, la, lb);
    ShiftFits(a, la);
    ShiftFits(b, lb);
    MulMonotonic(b, a, Pow2(la));
    ScaledQuotient(a, b, Pow2(la));
    NoWrap(a * Pow2(la));
    NoWrap(b * Pow2(la));
    NoWrap(b * Pow2(lb));
  }

  lemma Rescale(b: nat, la: nat, lb: nat)
    requires la <= lb
    ensures b * Pow2(lb) == b * Pow2(la) * Pow2(lb - la)
  {
    Pow2Add(la, lb - la);
  }

  // ---- Remainder and signed division ---------------------------------------------------------

  /** __umoddi3(). */
  method UMod(a: uint64, b: uint64) returns (r: uint64)
    requires b != 0
    ensures r == a % b
  {
    r := UDiv(a, b);
    Remainder(a, b);
    r := r * b % 0x1_0000_0000_0000_0000;
    r := a - r;
  }

  lemma Remainder(a: nat, b: nat)
    requires 0 < b
    ensures a / b * b <= a && a - a / b * b == a % b
  {
  }

  function AbsQuotient(a: int, b: int): int
    requires b != 0
  {
    Magnitude(a) / Magnitude(b)
  }

  /** The quotient truncated toward zero, as C defines it. */
  function Truncated(a: int, b: int): int
    requires b != 0
  {
    var q := AbsQuotient(a, b);
    if (a < 0) != (b < 0) then -q else q
  }

  lemma NonzeroMagnitude(b: int)
    requires b != 0
    ensures Magnitude(b) != 0
  {
  }

  lemma NegateIs(a: int64)
    ensures (if a < 0 then Int64(-(a as int)) else a) as int % 0x1_0000_0000_0000_0000 == Magnitude(a)
  {
  }

  /** The quotient is no larger than the dividend, and as large only when dividing by one. */
  lemma QuotientBound(m: nat, n: nat)
    requires 0 < n
    ensures 0 <= m / n <= m
    ensures m / n == m && m > 0 ==> n == 1
  {
    var q := m / n;
    assert q * n <= m < q * n + n;
    if q < 0 {
      MulMonotonic(q, -1, n);
      assert false;
    }
    MulMonotonic(1, n, q);
    if q == m && m > 0 && n > 1 {
      MulMonotonic(2, n, q);
    }
  }

  /** __divdi3(): the truncated quotient in every case but one, in which it does not fit. */
  method Div(a: int64, b: int64) returns (r: int64)
    requires b != 0
    ensures r == Truncated(a, b) <==> !(a == -0x8000_0000_0000_0000 && b == -1)
    ensures a == -0x8000_0000_0000_0000 && b == -1 ==> r == a
  {
    hide Truncated;
    var s := false;
    var a': int, b': int := a, b;
    if a < 0 {
      s, a' := true, Int64(-(a as int));
    }
    if b < 0 {
      s, b' := !s, Int64(-(b as int));
    }
    NegateIs(a);
    NegateIs(b);
    var q := UDiv(a' % 0x1_0000_0000_0000_0000, b' % 0x1_0000_0000_0000_0000);
    r := Int64(q);
    if s {
      r := Int64(-(r as int));
    }
    SignedQuotient(a, b, r);
  }

  lemma AbsQuotientIs(a: int, b: int)
    requires b != 0
    ensures 0 <= AbsQuotient(a, b) <= Magnitude(a)
    ensures Magnitude(b) == 1 ==> AbsQuotient(a, b) == Magnitude(a)
    ensures AbsQuotient(a, b) == Magnitude(a) && AbsQuotient(a, b) > 0 ==> Magnitude(b) == 1
  {
    hide Magnitude;
    NonzeroMagnitude(b);
    QuotientBound(Magnitude(a), Magnitude(b));
    if Magnitude(b) == 1 {
      DivModUnique(Magnitude(a), 1, Magnitude(a), 0);
    }
  }

  lemma SignedQuotient(a: int64, b: int64, r: int64)
    requires b != 0
    requires r == if (a < 0) != (b < 0) then Int64(-(Int64(AbsQuotient(a, b)) as int)) else Int64(AbsQuotient(a, b))
    ensures r == Truncated(a, b) <==> !(a == -0x8000_0000_0000_0000 && b == -1)
    ensures a == -0x8000_0000_0000_0000 && b == -1 ==> r == a
  {
    hide Int64, AbsQuotient;
    AbsQuotientIs(a, b);
    SignedWrap(AbsQuotient(a, b), (a < 0) != (b < 0), r);
    Extreme(a, b, AbsQuotient(a, b));
  }

  /** A 64-bit magnitude survives being given its sign, unless it is 2^63 without one. */
  lemma SignedWrap(q: nat, s: bool, r: int)
    requires q <= 0x8000_0000_0000_0000 && r == if s then Int64(-(Int64(q) as int)) else Int64(q)
    ensures q == 0x8000_0000_0000_0000 ==> r == -0x8000_0000_0000_0000
    ensures r == (if s then -(q as int) else q) <==> !(q == 0x8000_0000_0000_0000 && !s)
  {
  }

  lemma Extreme(a: int64, b: int64, q: nat)
    requires b != 0 && q <= Magnitude(a)
    requires Magnitude(b) == 1 ==> q == Magnitude(a)
    requires q == Magnitude(a) && q > 0 ==> Magnitude(b) == 1
    ensures q == 0x8000_0000_0000_0000 && (a < 0) == (b < 0) <==> a == -0x8000_0000_0000_0000 && b == -1
  {
  }
}
