/** What a serial line carries: one start bit, eight data bits least significant first, one stop
    bit, each lasting the sender's bit period. */
module UartLine {
  import opened Bits

  /** One more bit in at the top, the lowest out. */
  function ShiftIn(bit: bool, data: octet): octet {
    [bit] + data[..7]
  }

  /** The frame last begun on the line and how many clocks ago its start bit began, if any. */
  datatype Frame = None | Frame(data: octet, age: nat)

  /** The line during a frame's `slot`-th bit. */
  function SlotBit(data: octet, slot: nat): bool {
    if slot == 0 then false else if slot <= 8 then data[8 - slot] else true
  }

  /** The line, for a sender with a bit period of `period` clocks. */
  function Line(period: nat, f: Frame): bool
    requires 0 < period
  {
    f.None? || SlotBit(f.data, f.age / period)
  }

  /** What the next clock may bring: the same frame, one clock older, or a new one no sooner
      than `gap` clocks after it. */
  predicate Follows(gap: nat, f: Frame, g: Frame) {
    match g
    case None => f.None?
    case Frame(data, age) =>
      if age == 0 then f.None? || f.age + 1 >= gap else f == Frame(data, age - 1)
  }

  /** Division by a period, one clock later. */
  lemma DivStep(n: nat, period: nat)
    requires 0 < period
    ensures if n % period == period - 1 then (n + 1) / period == n / period + 1 && (n + 1) % period == 0
            else (n + 1) / period == n / period && (n + 1) % period == n % period + 1
  {
    var q, r := n / period, n % period;
    assert n == q * period + r;
    if r == period - 1 {
      assert n + 1 == (q + 1) * period + 0;
      DivModUnique(n + 1, period, q + 1, 0);
    } else {
      DivModUnique(n + 1, period, q, r + 1);
    }
  }

  lemma DivAtLeast(n: nat, period: nat, k: nat)
    requires 0 < period && k * period <= n
    ensures n / period >= k
  {
    var q := n / period;
    assert n < (q + 1) * period;
    if q + 1 <= k {
      MulMonotonic(q + 1, k, period);
      assert false;
    }
  }

  lemma DivBetween(n: nat, period: nat, k: nat)
    requires 0 < period && k * period <= n < k * period + period
    ensures n / period == k && n % period == n - k * period
  {
    DivModUnique(n, period, k, n - k * period);
  }
}
