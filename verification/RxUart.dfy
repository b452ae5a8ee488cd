/** The serial receiver of rtl/rxuartlite.v. */
module RxUart {
  import opened Bits
  import opened UartLine

  const STOP: nat := 8
  const WAIT: nat := 9
  const IDLE: nat := 15

  /** CLOCKS_PER_BAUD and 2^TIMER_BITS. */
  datatype Params = Params(period: nat, limit: nat) {
    predicate Valid() {
      4 <= period < limit
    }

    function Half(): nat {
      period / 2
    }

    /** How long after the start bit reaches `ck` the byte is delivered. */
    function Latency(): nat {
      Half() + 9 * period
    }
  }

  /** q, qq, ck: the synchronizer; chg and half: the start bit detector. */
  datatype Regs = Regs(q: bool, qq: bool, ck: bool, chg: nat, half: bool, state: nat, shift: octet,
                       wr: bool, data: octet, baud: nat, zero: bool)

  predicate Starts(r: Regs) {
    r.state == IDLE && !r.ck && r.half
  }

  function Next(p: Params, r: Regs, line: bool): Regs
    requires p.Valid()
  {
    Regs(
      q := line, qq := r.q, ck := r.qq,
      chg := if r.qq != r.ck then 0 else if r.chg != p.limit - 1 then r.chg + 1 else r.chg,
      half := !r.ck && r.chg >= p.Half() - 2,
      state :=
        if r.state == IDLE then (if Starts(r) then 0 else IDLE)
        else if r.state >= WAIT && r.ck then IDLE
        else if r.zero && r.state <= STOP then r.state + 1
        else r.state,
      shift := if r.zero && r.state != STOP then ShiftIn(r.qq, r.shift) else r.shift,
      wr := r.zero && r.state == STOP && r.ck,
      data := if r.zero && r.state == STOP && r.ck then r.shift else r.data,
      baud :=
        if Starts(r) then p.period - 1
        else if r.state == WAIT then 0
        else if r.zero && r.state < STOP then p.period - 1
        else if !r.zero then (if r.baud == 0 then p.limit - 1 else r.baud - 1)
        else r.baud,
      zero :=
        if Starts(r) then false
        else if r.state == WAIT then true
        else if r.zero && r.state < STOP then false
        else r.baud == 1 || r.zero)
  }

  predicate PowerOn(p: Params, r: Regs)
    requires p.Valid()
  {
    r.q && r.qq && r.ck && r.chg == p.limit - 1 && !r.half && Quiet(r)
  }

  // ---- When the two ends may differ ---------------------------------------------------------

  /** Every sampling point, `half` + k periods into the frame, lies within its own bit. */
  ghost predicate SamplesInPlace(p: Params, sender: nat)
  {
    && p.Half() <= sender
    && (forall k :: 1 <= k <= 8 ==> Within(p, sender, k))
    && 9 * sender <= p.Latency() - 1
  }

  predicate Within(p: Params, sender: nat, k: nat) {
    k * sender <= p.Half() + k * p.period < k * sender + sender
  }

  /** The sender's period may be off by a little. */
  predicate Compatible(p: Params, sender: nat) {
    9 * (sender - p.period) <= p.Half() - 1 && p.Half() + 8 * (p.period - sender) <= sender - 1
  }

  /** That little is exact. */
  lemma CompatibleIff(p: Params, sender: nat)
    requires p.Valid()
    ensures Compatible(p, sender) <==> SamplesInPlace(p, sender)
  {
    if Compatible(p, sender) {
      forall k | 1 <= k <= 8
        ensures Within(p, sender, k)
      {
        Place(p, sender, k);
      }
    }
    if SamplesInPlace(p, sender) {
      assert Within(p, sender, 8);
    }
  }

  lemma Place(p: Params, sender: nat, k: nat)
    requires p.Valid() && Compatible(p, sender) && 1 <= k <= 8
    ensures Within(p, sender, k)
  {
    if sender >= p.period {
      MulMonotonic(k, 9, sender - p.period);
    } else {
      MulMonotonic(k, 8, p.period - sender);
    }
    assert k * (sender - p.period) == k * sender - k * p.period;
    assert k * (p.period - sender) == k * p.period - k * sender;
  }

  /** A sender with the same clock is always within the limits. */
  lemma EqualClocks(p: Params)
    requires p.Valid()
    ensures Compatible(p, p.period) && p.Latency() <= 10 * p.period
  {
  }

  // ---- A frame in the receiver ----------------------------------------------------------------

  predicate Quiet(r: Regs) {
    r.state == IDLE && r.zero && r.baud == 0 && !r.wr
  }

  /** `n` bits of the byte have come in. */
  predicate Collected(shift: octet, data: octet, n: nat)
    requires n <= 8
  {
    shift[..n] == data[8 - n..]
  }

  predicate Detecting(p: Params, r: Regs, age: nat) {
    Quiet(r) && r.chg == age && r.half == (age >= p.Half() - 1)
  }

  predicate Sampling(p: Params, r: Regs, data: octet, since: nat)
    requires p.Valid()
  {
    SamplingAt(p, r, data, since / p.period, since % p.period)
  }

  /** `tick` clocks into the period before data bit `bit`, or the stop bit, is sampled. */
  predicate SamplingAt(p: Params, r: Regs, data: octet, bit: nat, tick: nat)
    requires tick < p.period
  {
    && bit <= 8 && r.state == bit && r.baud == p.period - 1 - tick && r.zero == (tick == p.period - 1)
    && !r.wr && Collected(r.shift, data, bit)
  }

  predicate Delivering(r: Regs, data: octet) {
    r.state == WAIT && r.zero && r.baud == 0 && r.wr && r.data == data
  }

  /** The receiver's state is determined by the frame on `ck`. */
  predicate Receives(p: Params, r: Regs, f: Frame)
    requires p.Valid()
  {
    if f.None? then Quiet(r)
    else if f.age < p.Half() then Detecting(p, r, f.age)
    else if f.age < p.Latency() then Sampling(p, r, f.data, f.age - p.Half())
    else if f.age == p.Latency() then Delivering(r, f.data)
    else Quiet(r)
  }

  lemma HighAfter(p: Params, sender: nat, f: Frame)
    requires p.Valid() && 0 < sender && Compatible(p, sender)
    requires f.Frame? ==> f.age >= p.Latency() - 1
    ensures Line(sender, f)
  {
    if f.Frame? {
      DivAtLeast(f.age, sender, 9);
    }
  }

  lemma LowFirst(p: Params, sender: nat, f: Frame)
    requires p.Valid() && 0 < sender && Compatible(p, sender)
    requires f.Frame? && f.age < p.Half()
    ensures !Line(sender, f)
  {
    DivBetween(f.age, sender, 0);
  }

  /** A new start bit. */
  lemma StartStep(p: Params, sender: nat, r: Regs, f: Frame, line: bool)
    requires p.Valid() && 0 < sender && Compatible(p, sender) && Receives(p, r, f)
    requires f.None? || f.age >= p.Latency()
    requires r.ck == Line(sender, f) && !r.qq
    ensures Detecting(p, Next(p, r, line), 0)
  {
    hide Compatible, Line;
    HighAfter(p, sender, f);
  }

  /** Nothing new on the line. */
  lemma QuietStep(p: Params, sender: nat, r: Regs, f: Frame, line: bool)
    requires p.Valid() && 0 < sender && Compatible(p, sender) && Receives(p, r, f)
    requires f.None? || f.age >= p.Latency()
    requires r.ck == Line(sender, f)
    ensures Quiet(Next(p, r, line))
  {
    hide Compatible, Line;
    HighAfter(p, sender, f);
  }

  lemma DetectStep(p: Params, sender: nat, r: Regs, f: Frame, line: bool)
    requires p.Valid() && 0 < sender && Compatible(p, sender)
    requires f.Frame? && f.age < p.Half() && Detecting(p, r, f.age)
    requires r.ck == Line(sender, f) && r.qq == Line(sender, f.(age := f.age + 1))
    ensures Receives(p, Next(p, r, line), f.(age := f.age + 1))
  {
    hide Compatible, Line;
    LowFirst(p, sender, f);
    if f.age + 1 < p.Half() {
      LowFirst(p, sender, f.(age := f.age + 1));
    } else {
      DivModUnique(0, p.period, 0, 0);
      assert r.shift[..0] == f.data[8..];
    }
  }

  lemma CollectOne(shift: octet, data: octet, n: nat)
    requires n < 8 && Collected(shift, data, n)
    ensures Collected(ShiftIn(data[7 - n], shift), data, n + 1)
  {
    var shift' := ShiftIn(data[7 - n], shift);
    assert shift'[..n + 1] == [data[7 - n]] + shift[..n];
    assert data[7 - n..] == [data[7 - n]] + data[8 - n..];
  }

  /** The sampling point of data bit `bit`: the bit itself is on `qq`. */
  lemma SampleIs(p: Params, sender: nat, data: octet, bit: nat, age: nat)
    requires p.Valid() && 0 < sender && Compatible(p, sender)
    requires bit < 8 && age == p.Half() + bit * p.period + p.period
    ensures Line(sender, Frame(data, age)) == data[7 - bit]
  {
    hide Compatible;
    var k := bit + 1;
    assert k * p.period == bit * p.period + p.period;
    Place(p, sender, k);
    DivBetween(age, sender, k);
  }

  lemma SampleStep(p: Params, sender: nat, r: Regs, f: Frame, line: bool)
    requires p.Valid() && 0 < sender && Compatible(p, sender)
    requires f.Frame? && p.Half() <= f.age < p.Latency() && Sampling(p, r, f.data, f.age - p.Half())
    requires r.ck == Line(sender, f) && r.qq == Line(sender, f.(age := f.age + 1))
    ensures Receives(p, Next(p, r, line), f.(age := f.age + 1))
  {
    hide Compatible, Line, SamplingAt, Next, Delivering, Detecting, Params.Latency, Params.Half;
    var since := f.age - p.Half();
    var bit, tick := since / p.period, since % p.period;
    Points(p, f.age);
    if tick < p.period - 1 {
      TickStep(p, r, f.data, bit, tick, line);
    } else if bit < 8 {
      SampleIs(p, sender, f.data, bit, f.age + 1);
      BitStep(p, r, f.data, bit, line);
    } else {
      HighAfter(p, sender, f);
      StopStep(p, r, f.data, line);
    }
  }

  /** From one clock of a frame to the next, in bits and ticks. */
  lemma Points(p: Params, age: nat)
    requires p.Valid() && p.Half() <= age < p.Latency()
    ensures var since, period := age - p.Half(), p.period; var bit, tick := since / period, since % period;
      && bit <= 8
      && if tick < period - 1 then
           (since + 1) / period == bit && (since + 1) % period == tick + 1 && age + 1 < p.Latency()
         else if bit < 8 then
           && (since + 1) / period == bit + 1 && (since + 1) % period == 0
           && age + 1 < p.Latency() && age + 1 == p.Half() + bit * period + period
         else age + 1 == p.Latency()
  {
    var since := age - p.Half();
    DivStep(since, p.period);
    LastPoint(since, p.period);
    assert since == since / p.period * p.period + since % p.period;
  }

  lemma LastPoint(since: nat, period: nat)
    requires 0 < period && since < 9 * period
    ensures since / period <= 8
    ensures since / period == 8 && since % period == period - 1 <==> since + 1 == 9 * period
  {
    var bit, tick := since / period, since % period;
    assert since == bit * period + tick;
    if bit > 8 {
      MulMonotonic(9, bit, period);
    } else if bit < 8 {
      MulMonotonic(bit + 1, 8, period);
    }
  }

  lemma TickStep(p: Params, r: Regs, data: octet, bit: nat, tick: nat, line: bool)
    requires p.Valid() && tick + 1 < p.period && SamplingAt(p, r, data, bit, tick)
    ensures SamplingAt(p, Next(p, r, line), data, bit, tick + 1)
  {
    hide Collected;
  }

  lemma BitStep(p: Params, r: Regs, data: octet, bit: nat, line: bool)
    requires p.Valid() && bit < 8 && SamplingAt(p, r, data, bit, p.period - 1) && r.qq == data[7 - bit]
    ensures SamplingAt(p, Next(p, r, line), data, bit + 1, 0)
  {
    hide Collected;
    CollectOne(r.shift, data, bit);
  }

  lemma StopStep(p: Params, r: Regs, data: octet, line: bool)
    requires p.Valid() && SamplingAt(p, r, data, 8, p.period - 1) && r.ck
    ensures Delivering(Next(p, r, line), data)
  {
    AllCollected(r.shift, data);
  }

  // ---- A stop bit that is not there ---------------------------------------------------------------

  /** The receiver has given up a byte and waits for the line to go high. */
  predicate Waiting(r: Regs) {
    r.state == WAIT && !r.wr
  }

  /** A byte whose stop bit is low is not delivered. */
  lemma NoStopBit(p: Params, r: Regs, data: octet, line: bool)
    requires p.Valid() && SamplingAt(p, r, data, 8, p.period - 1) && !r.ck
    ensures Waiting(Next(p, r, line))
  {
    hide Collected, ShiftIn;
  }

  lemma WaitingStep(p: Params, r: Regs, line: bool)
    requires p.Valid() && Waiting(r)
    ensures var s := Next(p, r, line); !s.wr && (if r.ck then s.state == IDLE else Waiting(s))
  {
    hide ShiftIn;
  }

  function Run(p: Params, r: Regs, lines: seq<bool>): Regs
    requires p.Valid()
  {
    if |lines| == 0 then r else Next(p, Run(p, r, lines[..|lines| - 1]), lines[|lines| - 1])
  }

  /** Nor is anything else, for as long as the line stays low. */
  lemma {:induction false} BreakIsIgnored(p: Params, r: Regs, lines: seq<bool>)
    requires p.Valid() && Waiting(r) && !r.ck && !r.qq && !r.q
    requires forall k :: 0 <= k < |lines| ==> !lines[k]
    ensures var s := Run(p, r, lines); Waiting(s) && !s.ck && !s.qq && !s.q
  {
    hide ShiftIn;
    if |lines| == 0 {
    } else {
      BreakIsIgnored(p, r, lines[..|lines| - 1]);
      WaitingStep(p, Run(p, r, lines[..|lines| - 1]), lines[|lines| - 1]);
    }
  }

  lemma AllCollected(shift: octet, data: octet)
    requires Collected(shift, data, 8)
    ensures shift == data
  {
  }

  /** However the frame's bits fall, the receiver follows it from start bit to delivery. */
  lemma ReceivesStep(p: Params, sender: nat, r: Regs, f: Frame, g: Frame, line: bool)
    requires p.Valid() && 0 < sender && Compatible(p, sender) && Receives(p, r, f)
    requires Follows(p.Latency() + 1, f, g) && r.ck == Line(sender, f) && r.qq == Line(sender, g)
    ensures Receives(p, Next(p, r, line), g)
  {
    hide Next, Compatible, Detecting, Sampling, Delivering, Quiet;
    if g.Frame? && g.age == 0 {
      LowFirst(p, sender, g);
      StartStep(p, sender, r, f, line);
    } else if f.None? || f.age >= p.Latency() {
      QuietStep(p, sender, r, f, line);
    } else if f.age < p.Half() {
      DetectStep(p, sender, r, f, line);
    } else {
      SampleStep(p, sender, r, f, line);
    }
  }

  // ---- The registers ------------------------------------------------------------------------

  datatype Sync = Sync(q: bool, qq: bool, ck: bool)
  datatype Detector = Detector(chg: nat, half: bool)
  datatype Output = Output(wr: bool, data: octet)
  datatype Timer = Timer(baud: nat, zero: bool)

  class Receiver {
    const p: Params
    var sync: Sync
    var detect: Detector
    var state: nat
    var shift: octet
    var out: Output
    var timer: Timer

    function Registers(): Regs
      reads this
    {
      Regs(sync.q, sync.qq, sync.ck, detect.chg, detect.half, state, shift, out.wr, out.data, timer.baud, timer.zero)
    }

    constructor (p: Params)
      requires p.Valid()
      ensures this.p == p && PowerOn(p, Registers()) && Receives(p, Registers(), None)
    {
      this.p := p;
      sync, detect := Sync(true, true, true), Detector(p.limit - 1, false);
      state, shift, out, timer := IDLE, Zeros(8), Output(false, Zeros(8)), Timer(0, true);
    }

    method SyncBlock(line: bool) returns (sync': Sync, detect': Detector)
      requires p.Valid()
      ensures var r := Next(p, Registers(), line);
        sync' == Sync(r.q, r.qq, r.ck) && detect' == Detector(r.chg, r.half)
    {
      sync' := Sync(line, sync.q, sync.qq);
      var chg' := detect.chg;
      if sync.qq != sync.ck {
        chg' := 0;
      } else if detect.chg != p.limit - 1 {
        chg' := detect.chg + 1;
      }
      detect' := Detector(chg', !sync.ck && detect.chg >= p.Half() - 2);
    }

    method StateBlock(ghost line: bool) returns (state': nat)
      requires p.Valid()
      ensures state' == Next(p, Registers(), line).state
    {
      state' := state;
      if state == IDLE {
        if !sync.ck && detect.half {
          state' := 0;
        }
      } else if state >= WAIT && sync.ck {
        state' := IDLE;
      } else if timer.zero && state <= STOP {
        state' := state + 1;
      }
    }

    method DataBlock(ghost line: bool) returns (out': Output, shift': octet)
      requires p.Valid()
      ensures var r := Next(p, Registers(), line); out' == Output(r.wr, r.data) && shift' == r.shift
    {
      out', shift' := Output(false, out.data), shift;
      if timer.zero && state == STOP && sync.ck {
        out' := Output(true, shift);
      }
      if timer.zero && state != STOP {
        shift' := ShiftIn(sync.qq, shift);
      }
    }

    method BaudBlock(ghost line: bool) returns (timer': Timer)
      requires p.Valid()
      ensures var r := Next(p, Registers(), line); timer' == Timer(r.baud, r.zero)
    {
      var baud', zero' := timer.baud, timer.zero;
      if state == IDLE && !sync.ck && detect.half {
        baud', zero' := p.period - 1, false;
      } else if state == WAIT {
        baud', zero' := 0, true;
      } else if timer.zero && state < STOP {
        baud', zero' := p.period - 1, false;
      } else {
        if !timer.zero {
          baud' := if timer.baud == 0 then p.limit - 1 else timer.baud - 1;
        }
        if timer.baud == 1 {
          zero' := true;
        }
      }
      timer' := Timer(baud', zero');
    }

    method Clock(line: bool)
      requires p.Valid()
      modifies this
      ensures Registers() == Next(p, old(Registers()), line)
    {
      hide Next;
      var sync', detect' := SyncBlock(line);
      var state' := StateBlock(line);
      var out', shift' := DataBlock(line);
      var timer' := BaudBlock(line);
      sync, detect, state, shift, out, timer := sync', detect', state', shift', out', timer';
    }
  }
}
