/** The input debouncer of rtl/debouncer.v, with every register zero at power-on. */
module Debouncer {

  /** q_in, r_in, r_last, the timer and its flags, and the output. */
  datatype Regs = Regs(q: nat, sync: nat, last: nat, timer: nat, zero: bool, different: bool, out: nat)

  const POWER_ON := Regs(0, 0, 0, 0, true, false, 0)

  /** `period` is 2^LGWAIT. */
  function Next(period: nat, r: Regs, i: nat): Regs
    requires 4 <= period
  {
    Regs(
      q := i, sync := r.q, last := r.sync,
      timer :=
        if r.zero && r.different then period - 1
        else if !r.zero then (if r.timer == 0 then period - 1 else r.timer - 1)
        else 0,
      zero := if r.zero && r.different then false else if !r.zero then r.timer / 2 == 0 else true,
      different := (r.different && !r.zero) || r.sync != r.out,
      out := if r.zero then r.last else r.out)
  }

  /** The timer runs exactly while its flag is low, and a change about to go out starts it. */
  predicate Timed(period: nat, r: Regs) {
    && r.zero == (r.timer == 0) && r.timer < period
    && (r.zero && r.last != r.out ==> r.different)
  }

  lemma TimedStep(period: nat, r: Regs, i: nat)
    requires 4 <= period && Timed(period, r)
    ensures Timed(period, Next(period, r, i))
  {
  }

  /** The state and the clocks since the output last changed, if it has. */
  datatype Watched = Watched(regs: Regs, changed: bool, since: nat)

  predicate Changes(period: nat, r: Regs, i: nat)
    requires 4 <= period
  {
    Next(period, r, i).out != r.out
  }

  function Watch(period: nat, w: Watched, i: nat): Watched
    requires 4 <= period
  {
    Watched(Next(period, w.regs, i), w.changed || Changes(period, w.regs, i),
            if Changes(period, w.regs, i) then 0 else w.since + 1)
  }

  /** Until a period has passed the timer still runs from the last change. */
  predicate Spaced(period: nat, w: Watched) {
    Timed(period, w.regs) && (w.changed && w.since < period - 1 ==> w.regs.timer == period - 1 - w.since)
  }

  lemma SpacedStep(period: nat, w: Watched, i: nat)
    requires 4 <= period && Spaced(period, w)
    ensures Spaced(period, Watch(period, w, i))
    ensures Changes(period, w.regs, i) && w.changed ==> w.since + 1 >= period
  {
    TimedStep(period, w.regs, i);
  }

  function Run(period: nat, w: Watched, inputs: seq<nat>): Watched
    requires 4 <= period
  {
    if |inputs| == 0 then w else Watch(period, Run(period, w, inputs[..|inputs| - 1]), inputs[|inputs| - 1])
  }

  lemma {:induction false} RunSpaced(period: nat, w: Watched, inputs: seq<nat>)
    requires 4 <= period && Spaced(period, w)
    ensures Spaced(period, Run(period, w, inputs))
  {
    if |inputs| == 0 {
    } else {
      RunSpaced(period, w, inputs[..|inputs| - 1]);
      SpacedStep(period, Run(period, w, inputs[..|inputs| - 1]), inputs[|inputs| - 1]);
    }
  }

  /** In every run, any two changes of the output are at least a whole period apart. */
  lemma ChangesApart(period: nat, inputs: seq<nat>, i: nat)
    requires 4 <= period
    ensures var w := Run(period, Watched(POWER_ON, false, 0), inputs);
      w.changed && Changes(period, w.regs, i) ==> w.since + 1 >= period
  {
    RunSpaced(period, Watched(POWER_ON, false, 0), inputs);
    SpacedStep(period, Run(period, Watched(POWER_ON, false, 0), inputs), i);
  }

  // ---- Nothing but the input --------------------------------------------------------------------

  predicate Known(inputs: seq<nat>, v: nat) {
    v == 0 || v in inputs
  }

  /** Every register of the data path holds what it was at power-on or an input of the run. */
  predicate FromInput(r: Regs, inputs: seq<nat>) {
    Known(inputs, r.q) && Known(inputs, r.sync) && Known(inputs, r.last) && Known(inputs, r.out)
  }

  /** The output never shows anything that was not on the input. */
  lemma {:induction false} ShowsInputs(period: nat, inputs: seq<nat>)
    requires 4 <= period
    ensures FromInput(Run(period, Watched(POWER_ON, false, 0), inputs).regs, inputs)
  {
    if |inputs| == 0 {
    } else {
      var before, i := inputs[..|inputs| - 1], inputs[|inputs| - 1];
      ShowsInputs(period, before);
      assert inputs == before + [i];
    }
  }

  // ---- A steady input ---------------------------------------------------------------------------

  /** `n` clocks of the same input. */
  function Hold(period: nat, r: Regs, v: nat, n: nat): Regs
    requires 4 <= period
  {
    if n == 0 then r else Next(period, Hold(period, r, v, n - 1), v)
  }

  /** After three clocks it has filled the synchronizer; from then on either the output shows it,
      or the timer is running out. */
  lemma {:induction false} HoldState(period: nat, r: Regs, v: nat, n: nat)
    requires 4 <= period && Timed(period, r)
    ensures var h := Hold(period, r, v, n);
      && Timed(period, h)
      && (n >= 1 ==> h.q == v) && (n >= 2 ==> h.sync == v) && (n >= 3 ==> h.last == v)
      && (n >= 3 ==> h.out == v || h.timer + n < period + 3)
  {
    if n == 0 {
    } else {
      HoldState(period, r, v, n - 1);
      TimedStep(period, Hold(period, r, v, n - 1), v);
    }
  }

  /** However the input bounced before, once it stays the output shows it within one period and
      three clocks, and keeps showing it. */
  lemma Settles(period: nat, inputs: seq<nat>, v: nat, n: nat)
    requires 4 <= period && n >= period + 3
    ensures Hold(period, Run(period, Watched(POWER_ON, false, 0), inputs).regs, v, n).out == v
  {
    RunSpaced(period, Watched(POWER_ON, false, 0), inputs);
    HoldState(period, Run(period, Watched(POWER_ON, false, 0), inputs).regs, v, n);
  }

  /** One value throughout. */
  predicate Steady(r: Regs, v: nat) {
    r.q == r.sync == r.last == r.out == v
  }

  /** How long the timer still runs if the input stays: once more, if it has been asked to. */
  function Left(period: nat, r: Regs): nat {
    (if r.zero then 0 else r.timer) + (if r.different then period else 0)
  }

  lemma LeftStep(period: nat, r: Regs, v: nat)
    requires 4 <= period && Timed(period, r) && Steady(r, v)
    ensures var s := Next(period, r, v);
      && Timed(period, s) && Steady(s, v)
      && Left(period, s) == (if Left(period, r) > 0 then Left(period, r) - 1 else 0)
  {
  }

  lemma {:induction false} LeftRuns(period: nat, r: Regs, v: nat, n: nat)
    requires 4 <= period && Timed(period, r) && Steady(r, v)
    ensures var h := Hold(period, r, v, n);
      && Timed(period, h) && Steady(h, v)
      && Left(period, h) == (if n < Left(period, r) then Left(period, r) - n else 0)
  {
    if n == 0 {
    } else {
      LeftRuns(period, r, v, n - 1);
      LeftStep(period, Hold(period, r, v, n - 1), v);
    }
  }

  lemma {:induction false} HoldOn(period: nat, r: Regs, v: nat, m: nat, n: nat)
    requires 4 <= period
    ensures Hold(period, Hold(period, r, v, m), v, n) == Hold(period, r, v, m + n)
  {
    if n == 0 {
    } else {
      HoldOn(period, r, v, m, n - 1);
    }
  }

  lemma FourClocks(period: nat, r: Regs, v: nat, w: nat)
    requires 4 <= period && Timed(period, r) && Steady(r, v) && Left(period, r) == 0
    ensures Hold(period, r, w, 3).out == v && Hold(period, r, w, 4).out == w
  {
    var h1 := Hold(period, r, w, 1);
    var h2 := Hold(period, r, w, 2);
    var h3 := Hold(period, r, w, 3);
    assert Hold(period, r, w, 0) == r;
    assert h1 == Next(period, r, w) && h2 == Next(period, h1, w) && h3 == Next(period, h2, w);
  }

  /** However the input bounced before, once it has stayed for three periods the next value that
      stays is on the output after exactly four clocks. */
  lemma ChangesAtOnce(period: nat, inputs: seq<nat>, v: nat, n: nat, w: nat)
    requires 4 <= period && n >= 3 * period + 3
    ensures var h := Hold(period, Run(period, Watched(POWER_ON, false, 0), inputs).regs, v, n);
      Hold(period, h, w, 3).out == v && Hold(period, h, w, 4).out == w
  {
    var r := Run(period, Watched(POWER_ON, false, 0), inputs).regs;
    RunSpaced(period, Watched(POWER_ON, false, 0), inputs);
    HoldState(period, r, v, period + 3);
    var shown := Hold(period, r, v, period + 3);
    LeftRuns(period, shown, v, n - period - 3);
    HoldOn(period, r, v, period + 3, n - period - 3);
    FourClocks(period, Hold(period, r, v, n), v, w);
  }

  // ---- The registers ------------------------------------------------------------------------------

  class Core {
    const period: nat
    var q: nat
    var sync: nat
    var last: nat
    var timer: nat
    var zero: bool
    var different: bool
    var out: nat

    function Registers(): Regs
      reads this
    {
      Regs(q, sync, last, timer, zero, different, out)
    }

    constructor (period: nat)
      requires 4 <= period
      ensures this.period == period && Registers() == POWER_ON && Timed(period, Registers())
    {
      this.period := period;
      q, sync, last, timer, zero, different, out := 0, 0, 0, 0, true, false, 0;
    }

    method Clock(i: nat)
      requires 4 <= period
      modifies this
      ensures Registers() == Next(period, old(Registers()), i)
    {
      var timer', zero' := 0, true;
      if zero && different {
        timer', zero' := period - 1, false;
      } else if !zero {
        timer', zero' := if timer == 0 then period - 1 else timer - 1, timer / 2 == 0;
      }
      var different' := (different && !zero) || sync != out;
      if zero {
        out := last;
      }
      q, sync, last, timer, zero, different := i, q, sync, timer', zero', different';
    }
  }
}
