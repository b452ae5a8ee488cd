/** Powers of two and the reading of a number as a string of bits.

    A hardware register is a `seq<bool>` whose first element is its most
    significant bit, so that a serial shift is `r[1..] + [bit]`.
 */
module Bits {

  type byte = b: int | 0 <= b < 256

  /** A 32-bit register. */
  type word = bits: seq<bool> | |bits| == 32 witness Zeros(32)

  /** An 8-bit register. */
  type octet = bits: seq<bool> | |bits| == 8 witness Zeros(8)

  function Zeros(n: nat): (bits: seq<bool>)
    ensures |bits| == n && forall i :: 0 <= i < n ==> !bits[i]
  {
    seq(n, _ => false)
  }

  function Ones(n: nat): (bits: seq<bool>)
    ensures |bits| == n && forall i :: 0 <= i < n ==> bits[i]
  {
    seq(n, _ => true)
  }

  function Pow2(n: nat): (p: nat)
    ensures 1 <= p
  {
    if n == 0 then 1 else 2 * Pow2(n - 1)
  }

  lemma {:induction false} Pow2Add(a: nat, b: nat)
    ensures Pow2(a + b) == Pow2(a) * Pow2(b)
  {
    if a == 0 {
    } else {
      Pow2Add(a - 1, b);
      calc {
        Pow2(a + b);
        2 * Pow2(a - 1 + b);
        2 * (Pow2(a - 1) * Pow2(b));
        Pow2(a) * Pow2(b);
      }
    }
  }

  lemma {:induction false} Pow2Monotonic(a: nat, b: nat)
    requires a <= b
    ensures Pow2(a) <= Pow2(b)
  {
    if a < b {
      Pow2Monotonic(a, b - 1);
    }
  }

  lemma Pow2Constants()
    ensures Pow2(8) == 0x100 && Pow2(16) == 0x1_0000 && Pow2(22) == 0x40_0000
    ensures Pow2(24) == 0x100_0000 && Pow2(31) == 0x8000_0000 && Pow2(32) == 0x1_0000_0000
    ensures Pow2(63) == 0x8000_0000_0000_0000 && Pow2(64) == 0x1_0000_0000_0000_0000
  {
    hide Pow2;
    SmallPowers();
    Pow2Add(8, 8);
    Pow2Add(16, 6);
    Pow2Add(16, 8);
    Pow2Add(16, 16);
    Pow2Next(31);
    Pow2Add(32, 32);
    Pow2Next(63);
  }

  lemma SmallPowers()
    ensures Pow2(1) == 2 && Pow2(4) == 16 && Pow2(6) == 64 && Pow2(8) == 0x100
  {
  }

  /** The low `width` bits of `n`, most significant first. */
  function BitsOf(n: nat, width: nat): (bits: seq<bool>)
    ensures |bits| == width
  {
    if width == 0 then [] else BitsOf(n / 2, width - 1) + [n % 2 == 1]
  }

  /** The number a string of bits spells. */
  function Val(bits: seq<bool>): nat
  {
    if |bits| == 0 then 0
    else 2 * Val(bits[..|bits| - 1]) + (if bits[|bits| - 1] then 1 else 0)
  }

  lemma {:induction false} ValBound(bits: seq<bool>)
    ensures Val(bits) < Pow2(|bits|)
  {
    if |bits| == 0 {
    } else {
      ValBound(bits[..|bits| - 1]);
    }
  }

  function ByteOf(bits: seq<bool>): byte
    requires |bits| == 8
  {
    ValBound(bits);
    Pow2Constants();
    Val(bits)
  }

  lemma HalfFits(n: nat, width: nat)
    requires 0 < width && n < Pow2(width)
    ensures n / 2 < Pow2(width - 1)
  {
  }

  lemma {:induction false} ValOfBits(n: nat, width: nat)
    requires n < Pow2(width)
    ensures Val(BitsOf(n, width)) == n
  {
    if width == 0 {
    } else {
      HalfFits(n, width);
      hide Pow2;
      ValOfBits(n / 2, width - 1);
      var bits := BitsOf(n, width);
      assert bits[..width - 1] == BitsOf(n / 2, width - 1);
    }
  }

  lemma {:induction false} BitsOfVal(bits: seq<bool>)
    ensures BitsOf(Val(bits), |bits|) == bits
  {
    if |bits| == 0 {
    } else {
      BitsOfVal(bits[..|bits| - 1]);
      assert bits == bits[..|bits| - 1] + [bits[|bits| - 1]];
    }
  }

  lemma {:induction false} ValZeros(n: nat)
    ensures Val(Zeros(n)) == 0
  {
    if n == 0 {
    } else {
      ValZeros(n - 1);
      assert Zeros(n)[..n - 1] == Zeros(n - 1);
    }
  }

  lemma Pow2Next(n: nat)
    ensures Pow2(n + 1) == 2 * Pow2(n)
  {
  }

  lemma {:induction false} ValAppend(a: seq<bool>, b: seq<bool>)
    ensures Val(a + b) == Val(a) * Pow2(|b|) + Val(b)
  {
    if |b| == 0 {
      assert a + b == a;
    } else {
      hide Pow2;
      Pow2Next(|b| - 1);
      var front := b[..|b| - 1];
      ValAppend(a, front);
      assert (a + b)[..|a + b| - 1] == a + front;
      TwiceProduct(Val(a), Pow2(|front|));
    }
  }

  lemma TwiceProduct(x: int, p: int)
    ensures 2 * (x * p) == x * (2 * p)
  {
  }

  /** Only the low `width` bits of a number reach its bit string. */
  lemma {:induction false} BitsOfMod(n: nat, width: nat)
    ensures n % Pow2(width) < Pow2(width)
    ensures BitsOf(n, width) == BitsOf(n % Pow2(width), width)
  {
    if width == 0 {
    } else {
      BitsOfMod(n / 2, width - 1);
      HalfOfMod(n, Pow2(width - 1));
    }
  }

  lemma HalfOfMod(n: nat, p: nat)
    requires 0 < p
    ensures (n % (2 * p)) / 2 == (n / 2) % p && (n % (2 * p)) % 2 == n % 2
  {
    var q, h := (n / 2) / p, (n / 2) % p;
    assert n / 2 == q * p + h;
    var r := 2 * h + n % 2;
    assert n == q * (2 * p) + r by {
      assert n == 2 * (n / 2) + n % 2;
      assert 2 * (q * p) == q * (2 * p);
    }
    DivModUnique(n, 2 * p, q, r);
  }

  /** Euclidean division is determined by quotient and remainder. */
  lemma DivModUnique(n: int, d: int, q: int, r: int)
    requires 0 <= r < d && n == q * d + r
    ensures n / d == q && n % d == r
  {
    var q', r' := n / d, n % d;
    assert (q' - q) * d == r - r';
    if q < q' {
      MulAtLeast(q' - q, d);
      assert false;
    } else if q' < q {
      MulAtLeast(q - q', d);
      assert false;
    }
  }

  lemma MulAtLeast(k: int, d: int)
    requires 1 <= k && 0 <= d
    ensures d <= k * d
  {
  }

  lemma MulMonotonic(a: int, b: int, c: nat)
    requires a <= b
    ensures a * c <= b * c
  {
    assert 0 <= (b - a) * c;
  }

  lemma MulStrict(a: int, b: int, c: nat)
    requires a < b && 0 < c
    ensures a * c < b * c
  {
    MulMonotonic(a + 1, b, c);
  }

  lemma MulAdd(x: int, y: int, c: int)
    ensures (x + y) * c == x * c + y * c
  {
  }

  lemma MulAssociative(x: int, y: int, z: int)
    ensures x * y * z == x * (y * z)
  {
  }

  /** Bitwise conjunction. */
  function And(a: nat, b: nat): nat
  {
    if a == 0 || b == 0 then 0
    else 2 * And(a / 2, b / 2) + (if a % 2 == 1 && b % 2 == 1 then 1 else 0)
  }

  /** Bitwise disjunction. */
  function Or(a: nat, b: nat): nat
    decreases a + b
  {
    if a == 0 && b == 0 then 0
    else 2 * Or(a / 2, b / 2) + (if a % 2 == 1 || b % 2 == 1 then 1 else 0)
  }

  /** Over disjoint ranges of bits a disjunction is a sum. */
  lemma {:induction false} OrDisjoint(high: nat, low: nat, k: nat)
    requires low < Pow2(k)
    ensures Or(high * Pow2(k), low) == high * Pow2(k) + low
    decreases k, high
  {
    if k == 0 {
      OrZero(high);
    } else {
      assert high * Pow2(k) == 2 * (high * Pow2(k - 1));
      OrDisjoint(high, low / 2, k - 1);
    }
  }

  lemma {:induction false} OrZero(n: nat)
    ensures Or(n, 0) == n
  {
    if n == 0 {
    } else {
      OrZero(n / 2);
    }
  }

  predicate Bit(n: nat, k: nat)
  {
    if k == 0 then n % 2 == 1 else Bit(n / 2, k - 1)
  }

  lemma {:induction false} AndBit(a: nat, b: nat, k: nat)
    ensures Bit(And(a, b), k) <==> Bit(a, k) && Bit(b, k)
  {
    if a == 0 || b == 0 {
      NoBitOfZero(k);
    } else if k != 0 {
      AndBit(a / 2, b / 2, k - 1);
    }
  }

  lemma {:induction false} NoBitOfZero(k: nat)
    ensures !Bit(0, k)
  {
    if k == 0 {
    } else {
      NoBitOfZero(k - 1);
    }
  }

  /** A number is determined by its bits. */
  lemma {:induction false} BitsDetermine(a: nat, b: nat)
    requires forall k: nat :: Bit(a, k) <==> Bit(b, k)
    ensures a == b
    decreases a + b
  {
    assert Bit(a, 0) <==> Bit(b, 0);
    if a != 0 || b != 0 {
      forall k: nat
        ensures Bit(a / 2, k) <==> Bit(b / 2, k)
      {
        assert Bit(a, k + 1) <==> Bit(b, k + 1);
      }
      BitsDetermine(a / 2, b / 2);
    }
  }

  /** `a` has every bit of `b`. */
  ghost predicate Covers(a: nat, b: nat)
  {
    forall k: nat :: Bit(b, k) ==> Bit(a, k)
  }

  /** `b` survives a conjunction with `a` exactly when `a` has every bit of `b`. */
  lemma {:induction false} AndKeepsIff(a: nat, b: nat)
    ensures And(a, b) == b <==> Covers(a, b)
  {
    forall k: nat
      ensures Bit(And(a, b), k) <==> Bit(a, k) && Bit(b, k)
    {
      AndBit(a, b, k);
    }
    if Covers(a, b) {
      BitsDetermine(And(a, b), b);
    }
  }

  lemma {:induction false} AndAtMost(a: nat, b: nat)
    ensures And(a, b) <= b
  {
    if a != 0 && b != 0 {
      AndAtMost(a / 2, b / 2);
    }
  }

  lemma {:induction false} AndAllOnes(n: nat, width: nat)
    requires n < Pow2(width)
    ensures And(Pow2(width) - 1, n) == n && And(n, Pow2(width) - 1) == n
  {
    if width == 0 {
    } else {
      AndAllOnes(n / 2, width - 1);
      assert (Pow2(width) - 1) / 2 == Pow2(width - 1) - 1;
    }
  }
}
