/** Cyclic redundancy checks, byte by byte and bit by bit, over a register of any width with its
    most significant bit first.  SD cards use CRC7, x^7 + x^3 + 1, on commands and CRC16,
    x^16 + x^12 + x^5 + 1, on data blocks (SD Physical Layer Simplified Specification, section
    4.5). */
module SdCrc {
  import opened Bits

  type bits = seq<bool>

  function Xor(a: bits, b: bits): (c: bits)
    requires |a| == |b|
    ensures |c| == |a| && forall i :: 0 <= i < |c| ==> c[i] == (a[i] != b[i])
  {
    seq(|a|, i requires 0 <= i < |a| => a[i] != b[i])
  }

  /** `n` places to the left. */
  function Left(r: bits, n: nat): (s: bits)
    requires n <= |r|
    ensures |s| == |r|
  {
    r[n..] + Zeros(n)
  }

  /** One shift of the register, with the polynomial's low terms fed back. */
  function Step(taps: bits, r: bits): (s: bits)
    requires |taps| == |r| > 0
    ensures |s| == |r|
  {
    if r[0] then Xor(Left(r, 1), taps) else Left(r, 1)
  }

  function Steps(taps: bits, r: bits, n: nat): (s: bits)
    requires |taps| == |r| > 0
    ensures |s| == |r|
  {
    if n == 0 then r else Step(taps, Steps(taps, r, n - 1))
  }

  /** A byte at the top of a register. */
  function Aligned(b: octet, width: nat): (r: bits)
    requires width >= 8
    ensures |r| == width
  {
    b + Zeros(width - 8)
  }

  function Feed(taps: bits, r: bits, b: octet): (s: bits)
    requires |taps| == |r| >= 8
    ensures |s| == |r|
  {
    Steps(taps, Xor(r, Aligned(b, |r|)), 8)
  }

  /** The checksum of a string of bytes, starting from zero. */
  function Crc(taps: bits, bytes: seq<octet>): (r: bits)
    requires |taps| >= 8
    ensures |r| == |taps|
  {
    if |bytes| == 0 then Zeros(|taps|) else Feed(taps, Crc(taps, bytes[..|bytes| - 1]), bytes[|bytes| - 1])
  }

  lemma CrcOne(taps: bits, bytes: seq<octet>, b: octet)
    requires |taps| >= 8
    ensures Crc(taps, bytes + [b]) == Feed(taps, Crc(taps, bytes), b)
  {
    assert (bytes + [b])[..|bytes|] == bytes;
  }

  // ---- Linearity ----------------------------------------------------------------------------

  lemma StepLinear(taps: bits, x: bits, y: bits)
    requires |taps| == |x| == |y| > 0
    ensures Step(taps, Xor(x, y)) == Xor(Step(taps, x), Step(taps, y))
  {
  }

  lemma {:induction false} StepsLinear(taps: bits, x: bits, y: bits, n: nat)
    requires |taps| == |x| == |y| > 0
    ensures Steps(taps, Xor(x, y), n) == Xor(Steps(taps, x, n), Steps(taps, y, n))
  {
    hide Step;
    if n == 0 {
    } else {
      StepsLinear(taps, x, y, n - 1);
      StepLinear(taps, Steps(taps, x, n - 1), Steps(taps, y, n - 1));
    }
  }

  function XorBytes(a: seq<octet>, b: seq<octet>): (c: seq<octet>)
    requires |a| == |b|
    ensures |c| == |a| && forall i :: 0 <= i < |c| ==> c[i] == Xor(a[i], b[i])
  {
    seq(|a|, i requires 0 <= i < |a| => Xor(a[i], b[i]))
  }

  lemma LoadLinear(x: bits, y: bits, a: octet, b: octet)
    requires |x| == |y| >= 8
    ensures Xor(Xor(x, y), Aligned(Xor(a, b), |x|)) == Xor(Xor(x, Aligned(a, |x|)), Xor(y, Aligned(b, |x|)))
  {
  }

  /** The checksum of a difference is the difference of the checksums. */
  lemma {:induction false} CrcLinear(taps: bits, a: seq<octet>, b: seq<octet>)
    requires |taps| >= 8 && |a| == |b|
    ensures Crc(taps, XorBytes(a, b)) == Xor(Crc(taps, a), Crc(taps, b))
  {
    hide Steps;
    if |a| == 0 {
      assert Xor(Zeros(|taps|), Zeros(|taps|)) == Zeros(|taps|);
    } else {
      var n := |a| - 1;
      CrcLinear(taps, a[..n], b[..n]);
      assert XorBytes(a, b)[..n] == XorBytes(a[..n], b[..n]);
      FeedLinear(taps, Crc(taps, a[..n]), Crc(taps, b[..n]), a[n], b[n]);
    }
  }

  lemma FeedLinear(taps: bits, x: bits, y: bits, a: octet, b: octet)
    requires |taps| == |x| == |y| >= 8
    ensures Feed(taps, Xor(x, y), Xor(a, b)) == Xor(Feed(taps, x, a), Feed(taps, y, b))
  {
    hide Steps, Xor, Aligned;
    LoadLinear(x, y, a, b);
    StepsLinear(taps, Xor(x, Aligned(a, |x|)), Xor(y, Aligned(b, |x|)), 8);
  }

  // ---- A message and its own checksum ---------------------------------------------------------

  /** Nothing is fed back while only zeros reach the top. */
  lemma {:induction false} StepsOverZeros(taps: bits, r: bits, n: nat)
    requires |taps| == |r| > 0 && n <= |r| && forall i :: 0 <= i < n ==> !r[i]
    ensures Steps(taps, r, n) == Left(r, n)
  {
    if n == 0 {
      assert Left(r, 0) == r;
    } else {
      StepsOverZeros(taps, r, n - 1);
    }
  }

  /** A block followed by its own checksum has checksum zero. */
  lemma SelfCheck(taps: bits, message: seq<octet>)
    requires |taps| == 16
    ensures var crc := Crc(taps, message); Crc(taps, message + [crc[..8], crc[8..]]) == Zeros(16)
  {
    hide Steps, Crc;
    var r := Crc(taps, message);
    assert message + [r[..8], r[8..]] == message + [r[..8]] + [r[8..]];
    CrcOne(taps, message, r[..8]);
    CrcOne(taps, message + [r[..8]], r[8..]);
    FeedHigh(taps, r);
    FeedLow(taps, r[8..]);
  }

  lemma FeedHigh(taps: bits, r: bits)
    requires |taps| == |r| == 16
    ensures Feed(taps, r, r[..8]) == Aligned(r[8..], 16)
  {
    hide Steps;
    StepsOverZeros(taps, Xor(r, Aligned(r[..8], 16)), 8);
  }

  lemma FeedLow(taps: bits, b: octet)
    requires |taps| == 16
    ensures Feed(taps, Aligned(b, 16), b) == Zeros(16)
  {
    hide Steps;
    StepsOverZeros(taps, Xor(Aligned(b, 16), Aligned(b, 16)), 8);
  }

  // ---- Bit by bit -------------------------------------------------------------------------------

  /** The checksum as a serial circuit computes it, one bit at a time. */
  function FeedBits(taps: bits, r: bits, s: bits): (t: bits)
    requires |taps| == |r| > 0
    ensures |t| == |r|
  {
    if |s| == 0 then r else Step(taps, FlipTop(FeedBits(taps, r, s[..|s| - 1]), s[|s| - 1]))
  }

  function FlipTop(r: bits, bit: bool): (s: bits)
    requires |r| > 0
    ensures |s| == |r|
  {
    r[0 := r[0] != bit]
  }

  lemma {:induction false} FeedBitsAppend(taps: bits, r: bits, a: bits, b: bits)
    requires |taps| == |r| > 0
    ensures FeedBits(taps, r, a + b) == FeedBits(taps, FeedBits(taps, r, a), b)
  {
    hide Step, FlipTop;
    if |b| == 0 {
      assert a + b == a;
    } else {
      assert (a + b)[..|a + b| - 1] == a + b[..|b| - 1];
      FeedBitsAppend(taps, r, a, b[..|b| - 1]);
    }
  }

  lemma TopFirst(taps: bits, t: bits, e: bits)
    requires |taps| == |t| == |e| > 0
    ensures Step(taps, Xor(t, e)) == Xor(Step(taps, FlipTop(t, e[0])), Left(e, 1))
  {
  }

  lemma LeftOne(e: bits, n: nat)
    requires 0 < n <= |e|
    ensures Left(Left(e, n - 1), 1) == Left(e, n) && Left(e, n - 1)[0] == e[n - 1]
    ensures e[..n][..n - 1] == e[..n - 1]
  {
  }

  /** Feeding bits one by one comes to the same as loading them at the top and stepping, but for
      those not yet fed. */
  lemma {:induction false} LoadThenStep(taps: bits, r: bits, e: bits, n: nat)
    requires |taps| == |r| == |e| > 0 && n <= |e|
    ensures Steps(taps, Xor(r, e), n) == Xor(FeedBits(taps, r, e[..n]), Left(e, n))
  {
    hide Step, FlipTop, Left;
    if n == 0 {
      NothingFed(e);
    } else {
      LoadThenStep(taps, r, e, n - 1);
      LeftOne(e, n);
      TopFirst(taps, FeedBits(taps, r, e[..n - 1]), Left(e, n - 1));
    }
  }

  lemma NothingFed(e: bits)
    ensures e[..0] == [] && Left(e, 0) == e
  {
  }

  function Joined(bytes: seq<octet>): (s: bits)
    ensures |s| == 8 * |bytes|
  {
    if |bytes| == 0 then [] else Joined(bytes[..|bytes| - 1]) + bytes[|bytes| - 1]
  }

  lemma FeedIsSerial(taps: bits, r: bits, b: octet)
    requires |taps| == |r| >= 8
    ensures Feed(taps, r, b) == FeedBits(taps, r, b)
  {
    hide Steps, FeedBits;
    var e := Aligned(b, |r|);
    LoadThenStep(taps, r, e, 8);
    assert e[..8] == b;
    assert Left(e, 8) == Zeros(|r|);
  }

  /** The byte loop and the bit-serial form agree. */
  lemma {:induction false} CrcIsSerial(taps: bits, bytes: seq<octet>)
    requires |taps| >= 8
    ensures Crc(taps, bytes) == FeedBits(taps, Zeros(|taps|), Joined(bytes))
  {
    hide Feed;
    if |bytes| == 0 {
    } else {
      var n := |bytes| - 1;
      CrcIsSerial(taps, bytes[..n]);
      FeedBitsAppend(taps, Zeros(|taps|), Joined(bytes[..n]), bytes[n]);
      FeedIsSerial(taps, Crc(taps, bytes[..n]), bytes[n]);
    }
  }

  // ---- Bursts -----------------------------------------------------------------------------------

  /** With a constant term in the polynomial, nothing but zero steps to zero. */
  lemma StepInjective(taps: bits, r: bits)
    requires |taps| == |r| > 0 && taps[|taps| - 1]
    ensures Step(taps, r) == Zeros(|r|) <==> r == Zeros(|r|)
  {
    var s := Step(taps, r);
    if s == Zeros(|r|) {
      assert s[|r| - 1] == r[0];
      forall i | 0 < i < |r|
        ensures !r[i]
      {
        assert s[i - 1] == r[i];
      }
    }
  }

  lemma {:induction false} StepsInjective(taps: bits, r: bits, n: nat)
    requires |taps| == |r| > 0 && taps[|taps| - 1]
    ensures Steps(taps, r, n) == Zeros(|r|) <==> r == Zeros(|r|)
  {
    hide Step;
    if n == 0 {
    } else {
      StepsInjective(taps, r, n - 1);
      StepInjective(taps, Steps(taps, r, n - 1));
    }
  }

  lemma {:induction false} FeedZeros(taps: bits, r: bits, n: nat)
    requires |taps| == |r| > 0
    ensures FeedBits(taps, r, Zeros(n)) == Steps(taps, r, n)
  {
    hide Step;
    if n == 0 {
    } else {
      FeedZeros(taps, r, n - 1);
      assert Zeros(n)[..n - 1] == Zeros(n - 1);
      var s := Steps(taps, r, n - 1);
      assert FlipTop(s, false) == s;
    }
  }

  /** An error confined to as many consecutive bits as the checksum has, wherever they lie. */
  ghost predicate Burst(err: seq<octet>, before: nat, pattern: bits, after: nat)
  {
    pattern != Zeros(|pattern|) && Joined(err) == Zeros(before) + pattern + Zeros(after)
  }

  lemma XorZero(r: bits)
    ensures Xor(Zeros(|r|), r) == r && Xor(r, Zeros(|r|)) == r
  {
  }

  lemma AllOut(r: bits)
    ensures Left(r, |r|) == Zeros(|r|) && r[..|r|] == r
  {
  }

  lemma PatternResidue(taps: bits, pattern: bits)
    requires |taps| == |pattern| > 0 && taps[|taps| - 1] && pattern != Zeros(|pattern|)
    ensures FeedBits(taps, Zeros(|taps|), pattern) != Zeros(|taps|)
  {
    hide Steps, FeedBits, Xor, Left;
    var w := |taps|;
    LoadThenStep(taps, Zeros(w), pattern, w);
    AllOut(pattern);
    XorZero(pattern);
    XorZero(FeedBits(taps, Zeros(w), pattern));
    StepsInjective(taps, pattern, w);
  }

  lemma BurstResidue(taps: bits, err: seq<octet>, before: nat, pattern: bits, after: nat)
    requires |taps| >= 8 && taps[|taps| - 1] && |pattern| == |taps| && Burst(err, before, pattern, after)
    ensures Crc(taps, err) != Zeros(|taps|)
  {
    hide Steps, FeedBits, Crc;
    var zero := Zeros(|taps|);
    CrcIsSerial(taps, err);
    FeedBitsAppend(taps, zero, Zeros(before) + pattern, Zeros(after));
    FeedBitsAppend(taps, zero, Zeros(before), pattern);
    FeedZeros(taps, zero, before);
    StepsInjective(taps, zero, before);
    PatternResidue(taps, pattern);
    var r := FeedBits(taps, zero, pattern);
    FeedZeros(taps, r, after);
    StepsInjective(taps, r, after);
  }

  /** A block and its checksum, of any length: an error burst never goes unseen. */
  lemma BurstDetected(taps: bits, block: seq<octet>, err: seq<octet>, before: nat, pattern: bits, after: nat)
    requires |taps| >= 8 && taps[|taps| - 1] && |pattern| == |taps| && Burst(err, before, pattern, after)
    requires |err| == |block| && Crc(taps, block) == Zeros(|taps|)
    ensures Crc(taps, XorBytes(block, err)) != Zeros(|taps|)
  {
    hide Crc, Burst;
    CrcLinear(taps, block, err);
    BurstResidue(taps, err, before, pattern, after);
    XorZero(Crc(taps, err));
  }
}
