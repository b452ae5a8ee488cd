/** Run-length encoding of a string of samples, as a reference: which samples are written as
    words of their own, and which are counted in a repeat. */
module RunEncoder {
  import opened RunLength

  /** Sample `n` is written although it may be no different: it must be, or the run before it has
      timed out and neither of the two samples before was written for such a reason. */
  predicate Forced(x: seq<nat>, must: seq<bool>, maxStep: nat, n: nat)
    requires n <= |x| && n < |must|
    decreases n, 0
  {
    must[n]
    || (n >= 2 && Quiet(x, must, maxStep, n - 2) + 1 >= maxStep
        && !Forced(x, must, maxStep, n - 1) && !Forced(x, must, maxStep, n - 2))
  }

  predicate Due(x: seq<nat>, must: seq<bool>, maxStep: nat, n: nat)
    requires n < |x| && n < |must|
    decreases n, 1
  {
    n == 0 || x[n] != x[n - 1] || Forced(x, must, maxStep, n)
  }

  /** How many of the last samples before number `n` were not written. */
  function Quiet(x: seq<nat>, must: seq<bool>, maxStep: nat, n: nat): nat
    requires n <= |x| && n <= |must|
    decreases n, 0
  {
    if n == 0 || Due(x, must, maxStep, n - 1) then 0 else Quiet(x, must, maxStep, n - 1) + 1
  }

  /** The words for the first `n` samples, after a repeat of nothing. */
  function Encode(x: seq<nat>, must: seq<bool>, maxStep: nat, n: nat): (words: seq<Word>)
    requires n <= |x| && n <= |must|
    ensures |words| > 0
  {
    if n == 0 then [Repeat(0)]
    else Write(Encode(x, must, maxStep, n - 1), x[n - 1], Due(x, must, maxStep, n - 1))
  }

  /** One more sample. */
  function Write(words: seq<Word>, v: nat, due: bool): (more: seq<Word>)
    requires |words| > 0
    ensures |words| <= |more| <= |words| + 1
  {
    var last := words[|words| - 1];
    if due then words + [Sample(v)]
    else if last.Repeat? then words[..|words| - 1] + [Repeat(last.extra + 1)]
    else words + [Repeat(0)]
  }

  // ---- Only what has come counts ---------------------------------------------------------------------

  lemma {:induction false} ForcedBefore(x: seq<nat>, must: seq<bool>, y: seq<nat>, more: seq<bool>, maxStep: nat, n: nat)
    requires x <= y && must <= more && n <= |x| && n < |must|
    ensures Forced(x, must, maxStep, n) == Forced(y, more, maxStep, n)
    decreases n, 1
  {
    if n >= 2 {
      ForcedBefore(x, must, y, more, maxStep, n - 1);
      ForcedBefore(x, must, y, more, maxStep, n - 2);
      QuietBefore(x, must, y, more, maxStep, n - 2);
    }
  }

  lemma {:induction false} QuietBefore(x: seq<nat>, must: seq<bool>, y: seq<nat>, more: seq<bool>, maxStep: nat, n: nat)
    requires x <= y && must <= more && n <= |x| && n <= |must|
    ensures Quiet(x, must, maxStep, n) == Quiet(y, more, maxStep, n)
    decreases n, 0
  {
    if n > 0 {
      ForcedBefore(x, must, y, more, maxStep, n - 1);
      QuietBefore(x, must, y, more, maxStep, n - 1);
    }
  }

  lemma {:induction false} EncodeBefore(x: seq<nat>, must: seq<bool>, y: seq<nat>, more: seq<bool>, maxStep: nat, n: nat)
    requires x <= y && must <= more && n <= |x| && n <= |must|
    ensures Encode(x, must, maxStep, n) == Encode(y, more, maxStep, n)
  {
    hide Forced, Write;
    if n > 0 {
      EncodeBefore(x, must, y, more, maxStep, n - 1);
      ForcedBefore(x, must, y, more, maxStep, n - 1);
    }
  }

  // ---- It compresses ----------------------------------------------------------------------------------

  lemma {:induction false} QuietMeans(x: seq<nat>, must: seq<bool>, maxStep: nat, n: nat, k: nat)
    requires n <= |x| && n <= |must| && k < n <= k + Quiet(x, must, maxStep, n)
    ensures !Due(x, must, maxStep, k)
  {
    hide Forced;
    if k < n - 1 {
      QuietMeans(x, must, maxStep, n - 1, k);
    }
  }

  /** Two samples written for nothing but a time-out are more than MAX_STEP apart. */
  lemma ForcedApart(x: seq<nat>, must: seq<bool>, maxStep: nat, j: nat, k: nat)
    requires j < k < |x| <= |must| && Forced(x, must, maxStep, j) && Forced(x, must, maxStep, k) && !must[k]
    ensures j + maxStep + 2 <= k
  {
    if k < j + maxStep + 2 && j < k - 2 {
      QuietMeans(x, must, maxStep, k - 2, j);
    }
  }

  /** A stretch of samples, from number `a` up to `n`, with none that must be written. */
  predicate Free(must: seq<bool>, a: nat, n: nat)
    requires n <= |must|
  {
    forall k :: a <= k < n ==> !must[k]
  }

  /** All of them are like the one before. */
  predicate Steady(x: seq<nat>, a: nat, n: nat)
    requires 0 < a && n <= |x|
  {
    forall k :: a <= k < n ==> x[k] == x[k - 1]
  }

  /** Whether one of them is written. */
  predicate Some(x: seq<nat>, must: seq<bool>, maxStep: nat, a: nat, n: nat)
    requires n <= |x| && n <= |must|
  {
    exists k :: a <= k < n && Due(x, must, maxStep, k)
  }

  lemma AtMostOne(x: seq<nat>, must: seq<bool>, maxStep: nat, a: nat, n: nat)
    requires 0 < a <= n < |x| <= |must| && Steady(x, a, n + 1) && Free(must, a, n + 1) && n < a + maxStep + 2
    requires Some(x, must, maxStep, a, n)
    ensures !Due(x, must, maxStep, n)
  {
    hide Forced;
    var k :| a <= k < n && Due(x, must, maxStep, k);
    if Due(x, must, maxStep, n) {
      ForcedApart(x, must, maxStep, k, n);
    }
  }

  lemma NotSome(x: seq<nat>, must: seq<bool>, maxStep: nat, a: nat)
    requires a <= |x| <= |must|
    ensures !Some(x, must, maxStep, a, a)
  {
  }

  lemma Sooner(x: seq<nat>, must: seq<bool>, a: nat, n: nat)
    requires 0 < a < n <= |x| <= |must| && Steady(x, a, n) && Free(must, a, n)
    ensures Steady(x, a, n - 1) && Free(must, a, n - 1)
  {
  }

  lemma EncodeOne(x: seq<nat>, must: seq<bool>, maxStep: nat, n: nat)
    requires 0 < n <= |x| <= |must|
    ensures var before, now := Encode(x, must, maxStep, n - 1), Encode(x, must, maxStep, n);
      if Due(x, must, maxStep, n - 1) then |now| == |before| + 1
      else now[|now| - 1].Repeat? && |now| == |before| + (if before[|before| - 1].Repeat? then 0 else 1)
  {
    hide Due;
  }

  lemma SomeGrows(x: seq<nat>, must: seq<bool>, maxStep: nat, a: nat, n: nat)
    requires a <= n < |x| <= |must|
    ensures Some(x, must, maxStep, a, n + 1) <==> Some(x, must, maxStep, a, n) || Due(x, must, maxStep, n)
  {
  }

  /** A stretch of equal samples, of up to MAX_STEP + 2 and none that must be written, adds at most
      a repeat, or a repeat, one sample and another repeat. */
  lemma {:induction false} Compresses(x: seq<nat>, must: seq<bool>, maxStep: nat, a: nat, n: nat)
    requires 0 < a <= n <= |x| <= |must| && Steady(x, a, n) && Free(must, a, n) && n <= a + maxStep + 2
    ensures var before, now := Encode(x, must, maxStep, a), Encode(x, must, maxStep, n);
      && |now| <= |before| + (if Some(x, must, maxStep, a, n) then 3 else 1)
      && (n > a && |now| == |before| + (if Some(x, must, maxStep, a, n) then 3 else 1) ==> now[|now| - 1].Repeat?)
      && (n > a && !Some(x, must, maxStep, a, n) ==> now[|now| - 1].Repeat?)
  {
    hide Forced, Due, Some, Encode, Write, Quiet, Steady, Free;
    if n == a {
      NotSome(x, must, maxStep, a);
    } else {
      Sooner(x, must, a, n);
      Compresses(x, must, maxStep, a, n - 1);
      EncodeOne(x, must, maxStep, n);
      SomeGrows(x, must, maxStep, a, n - 1);
      if Some(x, must, maxStep, a, n - 1) {
        AtMostOne(x, must, maxStep, a, n - 1);
      }
    }
  }
}
