/** The checksums as remainders of polynomials over two elements, most significant coefficient
    first. */
module SdPoly {
  import opened Bits
  import opened SdCrc
  import opened SdSim

  /** The polynomial with these exponents. */
  function Poly(degree: nat, exponents: set<nat>): (p: bits)
    ensures |p| == degree + 1
  {
    seq(degree + 1, i requires 0 <= i <= degree => degree - i in exponents)
  }

  function Times(bit: bool, p: bits): (r: bits)
    ensures |r| == |p|
  {
    if bit then p else Zeros(|p|)
  }

  /** The product of two polynomials, a coefficient of the first at a time. */
  function Product(q: bits, p: bits): (r: bits)
    ensures |r| == |q| + |p|
  {
    if |q| == 0 then Zeros(|p|)
    else
      var n := |q| - 1;
      Xor(Product(q[..n], p) + [false], Zeros(n + 1) + Times(q[n], p))
  }

  /** `r` is the remainder of `s` times x^|r| on division by `p`. */
  ghost predicate Remainder(r: bits, s: bits, p: bits)
    requires |p| == |r| + 1
  {
    exists q: bits :: |q| == |s| && Leaves(r, s, p, q)
  }

  /** s times x^|r| is q times p, and r. */
  predicate Leaves(r: bits, s: bits, p: bits, q: bits)
    requires |p| == |r| + 1 && |q| == |s|
  {
    Xor([false] + s + Zeros(|r|), Product(q, p)) == Zeros(|s| + 1) + r
  }

  // ---- There is only one -------------------------------------------------------------------------

  lemma XorSwap(a: bits, b: bits, c: bits, d: bits)
    requires |a| == |b| == |c| == |d|
    ensures Xor(Xor(a, b), Xor(c, d)) == Xor(Xor(a, c), Xor(b, d))
  {
  }

  lemma XorAppend(a: bits, b: bits, c: bits, d: bits)
    requires |a| == |b| && |c| == |d|
    ensures Xor(a + c, b + d) == Xor(a, b) + Xor(c, d)
  {
  }

  lemma XorSelf(a: bits)
    ensures Xor(a, a) == Zeros(|a|)
  {
  }

  lemma XorEqual(a: bits, b: bits)
    requires |a| == |b| && Xor(a, b) == Zeros(|a|)
    ensures a == b
  {
    forall i | 0 <= i < |a|
      ensures a[i] == b[i]
    {
      assert !Xor(a, b)[i];
    }
  }

  lemma TimesLinear(a: bool, b: bool, p: bits)
    ensures Times(a != b, p) == Xor(Times(a, p), Times(b, p))
  {
  }

  lemma {:induction false} ProductLinear(a: bits, b: bits, p: bits)
    requires |a| == |b|
    ensures Product(Xor(a, b), p) == Xor(Product(a, p), Product(b, p))
  {
    if |a| == 0 {
    } else {
      hide Xor, Product, Times;
      var n := |a| - 1;
      FrontXor(a, b, n);
      ProductLinear(a[..n], b[..n], p);
      OneMore(a, p);
      OneMore(b, p);
      OneMore(Xor(a, b), p);
      TimesLinear(a[n], b[n], p);
      TermsLinear(Product(a[..n], p), Product(b[..n], p), Times(a[n], p), Times(b[n], p), n + 1);
    }
  }

  lemma FrontXor(a: bits, b: bits, n: nat)
    requires n + 1 == |a| == |b|
    ensures Xor(a, b)[..n] == Xor(a[..n], b[..n]) && Xor(a, b)[n] == (a[n] != b[n])
  {
  }

  lemma TermsLinear(x: bits, y: bits, s: bits, t: bits, n: nat)
    requires |x| == |y| && |s| == |t| && n + |s| == |x| + 1
    ensures Xor(Xor(x, y) + [false], Zeros(n) + Xor(s, t))
         == Xor(Xor(x + [false], Zeros(n) + s), Xor(y + [false], Zeros(n) + t))
  {
    hide Xor;
    XorOff(x, y);
    XorAppend(Zeros(n), Zeros(n), s, t);
    XorSelf(Zeros(n));
    XorSwap(x + [false], Zeros(n) + s, y + [false], Zeros(n) + t);
  }

  lemma OneMore(q: bits, p: bits)
    requires |q| > 0
    ensures var n := |q| - 1; Product(q, p) == Xor(Product(q[..n], p) + [false], Zeros(n + 1) + Times(q[n], p))
  {
  }

  lemma XorOff(x: bits, y: bits)
    requires |x| == |y|
    ensures Xor(x + [false], y + [false]) == Xor(x, y) + [false]
  {
  }

  lemma {:induction false} ProductOfZeros(n: nat, p: bits)
    ensures Product(Zeros(n), p) == Zeros(n + |p|)
  {
    if n == 0 {
    } else {
      ProductOfZeros(n - 1, p);
      assert Zeros(n)[..n - 1] == Zeros(n - 1);
    }
  }

  /** The highest coefficient of a product with a monic polynomial. */
  lemma {:induction false} ProductTop(q: bits, p: bits, k: nat)
    requires |p| > 0 && p[0] && k < |q| && q[k] && forall i :: 0 <= i < k ==> !q[i]
    ensures Product(q, p)[k + 1]
  {
    var n := |q| - 1;
    if k < n {
      ProductTop(q[..n], p, k);
    } else {
      assert q[..n] == Zeros(n);
      ProductOfZeros(n, p);
    }
  }

  lemma TailZeros(q: bits)
    requires |q| > 0 && !q[0]
    ensures q[1..] == Zeros(|q| - 1) ==> q == Zeros(|q|)
  {
    if q[1..] == Zeros(|q| - 1) {
      forall i | 0 <= i < |q|
        ensures !q[i]
      {
        assert i > 0 ==> q[i] == q[1..][i - 1];
      }
    }
  }

  lemma {:induction false} FirstSet(q: bits) returns (k: nat)
    requires q != Zeros(|q|)
    ensures k < |q| && q[k] && forall i :: 0 <= i < k ==> !q[i]
  {
    if q[0] {
      k := 0;
    } else {
      TailZeros(q);
      k := FirstSet(q[1..]);
      k := k + 1;
    }
  }

  lemma OneQuotient(r1: bits, r2: bits, s: bits, p: bits, q1: bits, q2: bits)
    requires |r1| == |r2| && |p| == |r1| + 1 && p[0] && |q1| == |q2| == |s|
    requires Leaves(r1, s, p, q1) && Leaves(r2, s, p, q2)
    ensures r1 == r2
  {
    hide Xor, Product;
    var m, q := [false] + s + Zeros(|r1|), Xor(q1, q2);
    XorSwap(m, Product(q1, p), m, Product(q2, p));
    XorSelf(m);
    ProductLinear(q1, q2, p);
    XorZero(Product(q, p));
    XorAppend(Zeros(|s| + 1), Zeros(|s| + 1), r1, r2);
    XorSelf(Zeros(|s| + 1));
    assert Product(q, p) == Zeros(|s| + 1) + Xor(r1, r2);
    if q != Zeros(|q|) {
      var k := FirstSet(q);
      ProductTop(q, p, k);
      assert false;
    }
    ProductOfZeros(|q|, p);
    assert Xor(r1, r2) == Product(q, p)[|s| + 1..];
    XorEqual(r1, r2);
  }

  lemma RemainderUnique(r1: bits, r2: bits, s: bits, p: bits)
    requires |r1| == |r2| && |p| == |r1| + 1 && p[0] && Remainder(r1, s, p) && Remainder(r2, s, p)
    ensures r1 == r2
  {
    hide Leaves;
    var q1: bits :| |q1| == |s| && Leaves(r1, s, p, q1);
    var q2: bits :| |q2| == |s| && Leaves(r2, s, p, q2);
    OneQuotient(r1, r2, s, p, q1, q2);
  }

  // ---- The register computes it ------------------------------------------------------------------

  /** One bit more. */
  lemma StepDivides(taps: bits, r: bits, bit: bool)
    requires |taps| == |r| > 0
    ensures var t := FlipTop(r, bit);
      Xor(r + [false], Xor([bit] + Zeros(|r|), Times(t[0], [true] + taps))) == [false] + Step(taps, t)
  {
    var t := FlipTop(r, bit);
    if t[0] {
      assert Times(t[0], [true] + taps) == [true] + taps;
    } else {
      assert Times(t[0], [true] + taps) == Zeros(|r| + 1);
    }
  }

  lemma LeavesOneMore(taps: bits, r: bits, s: bits, q: bits, bit: bool)
    requires |taps| == |r| > 0 && |q| == |s| && Leaves(r, s, [true] + taps, q)
    ensures var t := FlipTop(r, bit); Leaves(Step(taps, t), s + [bit], [true] + taps, q + [t[0]])
  {
    hide Xor, Product, Times, Step, FlipTop;
    var n, p, t := |s| + 1, [true] + taps, FlipTop(r, bit);
    var m, tail := [false] + s + Zeros(|r|), [bit] + Zeros(|r|);
    OneMore(q + [t[0]], p);
    assert (q + [t[0]])[..|q|] == q;
    ShiftedMessage(s, |r|, bit);
    XorSwap(m + [false], Zeros(n) + tail, Product(q, p) + [false], Zeros(n) + Times(t[0], p));
    XorOff(m, Product(q, p));
    XorAppend(Zeros(n), Zeros(n), tail, Times(t[0], p));
    XorSelf(Zeros(n));
    StepDivides(taps, r, bit);
    assert Zeros(n) + r + [false] == Zeros(n) + (r + [false]);
    XorAppend(Zeros(n), Zeros(n), r + [false], Xor(tail, Times(t[0], p)));
    assert Zeros(n) + ([false] + Step(taps, t)) == Zeros(n + 1) + Step(taps, t);
  }

  lemma ShiftedMessage(s: bits, n: nat, bit: bool)
    ensures [false] + (s + [bit]) + Zeros(n)
         == Xor([false] + s + Zeros(n) + [false], Zeros(|s| + 1) + ([bit] + Zeros(n)))
  {
  }

  lemma {:induction false} FeedDivides(taps: bits, s: bits) returns (q: bits)
    requires |taps| > 0
    ensures |q| == |s| && Leaves(FeedBits(taps, Zeros(|taps|), s), s, [true] + taps, q)
  {
    hide Step, FlipTop;
    if |s| == 0 {
      q := [];
      XorSelf(Zeros(|taps| + 1));
      assert [false] + s + Zeros(|taps|) == Zeros(|taps| + 1);
      assert Zeros(1) + Zeros(|taps|) == Zeros(|taps| + 1);
    } else {
      hide Leaves;
      var front, bit := s[..|s| - 1], s[|s| - 1];
      q := FeedDivides(taps, front);
      var r := FeedBits(taps, Zeros(|taps|), front);
      LeavesOneMore(taps, r, front, q, bit);
      assert front + [bit] == s;
      q := q + [FlipTop(r, bit)[0]];
    }
  }

  /** The checksum is the remainder of the message on division by the polynomial whose low terms
      are fed back. */
  lemma CrcDivides(taps: bits, bytes: seq<octet>)
    requires |taps| >= 8
    ensures Remainder(Crc(taps, bytes), Joined(bytes), [true] + taps)
  {
    hide Crc, FeedBits, Leaves;
    CrcIsSerial(taps, bytes);
    var q := FeedDivides(taps, Joined(bytes));
  }

  // ---- The two of an SD card -----------------------------------------------------------------------

  /** x^16 + x^12 + x^5 + 1 */
  function Poly16(): (p: bits)
    ensures |p| == 17
  {
    Poly(16, {16, 12, 5, 0})
  }

  /** x^7 + x^3 + 1 */
  function Poly7(): (p: bits)
    ensures |p| == 8
  {
    Poly(7, {7, 3, 0})
  }

  lemma Taps16()
    ensures [true] + TAPS16 == Poly16()
  {
  }

  lemma Taps7()
    ensures [true] + TAPS7 == Poly7() + [false]
  {
  }

  /** The checksum of a data block is its remainder modulo x^16 + x^12 + x^5 + 1, which is the only
      one. */
  lemma BlockRemainder(bytes: seq<octet>, r: bits)
    requires |r| == 16
    ensures Remainder(r, Joined(bytes), Poly16()) <==> r == Crc(TAPS16, bytes)
  {
    hide Crc, Remainder;
    CrcDivides(TAPS16, bytes);
    Taps16();
    if Remainder(r, Joined(bytes), Poly16()) {
      RemainderUnique(r, Crc(TAPS16, bytes), Joined(bytes), Poly16());
    }
  }

  lemma {:induction false} ProductShift(q: bits, p: bits)
    ensures Product(q, p + [false]) == Product(q, p) + [false]
  {
    if |q| == 0 {
    } else {
      var n := |q| - 1;
      ProductShift(q[..n], p);
      hide Xor, Product;
      OneMore(q, p);
      OneMore(q, p + [false]);
      assert Zeros(n + 1) + Times(q[n], p + [false]) == Zeros(n + 1) + Times(q[n], p) + [false];
      XorOff(Product(q[..n], p) + [false], Zeros(n + 1) + Times(q[n], p));
    }
  }

  lemma Front(a: bits, r: bits, x: bits)
    requires |r| > 0 && a + r == x + [false]
    ensures !r[|r| - 1] && x == a + r[..|r| - 1]
  {
    assert (a + r)[|a| + |r| - 1] == r[|r| - 1];
    assert x == (a + r)[..|x|];
  }

  /** A factor of x in the divisor is a factor of the remainder. */
  lemma FactorX(r: bits, s: bits, p: bits)
    requires |r| == |p| > 0 && Remainder(r, s, p + [false])
    ensures var n := |r| - 1; !r[n] && Remainder(r[..n], s, p)
  {
    hide Xor, Product;
    var n := |r| - 1;
    var q: bits :| |q| == |s| && Leaves(r, s, p + [false], q);
    var m := [false] + s + Zeros(n);
    ProductShift(q, p);
    assert [false] + s + Zeros(|r|) == m + [false];
    XorOff(m, Product(q, p));
    assert Zeros(|s| + 1) + r == Xor(m, Product(q, p)) + [false];
    Front(Zeros(|s| + 1), r, Xor(m, Product(q, p)));
    assert Leaves(r[..n], s, p, q);
  }

  /** The checksum of a command, above its end bit, is its remainder modulo x^7 + x^3 + 1. */
  lemma CommandRemainder(bytes: seq<octet>, r: bits)
    requires |r| == 7
    ensures Remainder(r, Joined(bytes), Poly7()) <==> r == Crc(TAPS7, bytes)[..7]
  {
    hide Crc, Remainder;
    CrcDivides(TAPS7, bytes);
    Taps7();
    FactorX(Crc(TAPS7, bytes), Joined(bytes), Poly7());
    if Remainder(r, Joined(bytes), Poly7()) {
      RemainderUnique(r, Crc(TAPS7, bytes)[..7], Joined(bytes), Poly7());
    }
  }
}
