/** The serial transmitter of rtl/txuartlite.v. */
module TxUart {
  import opened Bits
  import opened UartLine

  const IDLE: nat := 15

  /** CLOCKS_PER_BAUD and 2^TIMING_BITS. */
  datatype Params = Params(period: nat, limit: nat) {
    predicate Valid() {
      2 <= period < limit
    }
  }

  datatype Regs = Regs(state: nat, busy: bool, data: octet, baud: nat, zero: bool, line: bool)

  datatype Input = Input(wr: bool, data: octet)

  predicate Accepts(r: Regs, i: Input) {
    i.wr && !r.busy
  }

  function Less(p: Params, n: nat): nat
    requires p.Valid()
  {
    if n == 0 then p.limit - 1 else n - 1
  }

  function Next(p: Params, r: Regs, i: Input): Regs
    requires p.Valid()
  {
    var start := Accepts(r, i);
    Regs(
      state :=
        if !r.zero then r.state
        else if r.state > 8 then (if start then 0 else IDLE)
        else r.state + 1,
      busy := if !r.zero then true else if r.state > 8 then start else true,
      data := if start then i.data else if r.zero then ShiftIn(true, r.data) else r.data,
      baud :=
        if r.state == IDLE then (if start then p.period - 1 else 0)
        else if r.zero && r.state == 9 then 0
        else if !r.zero then Less(p, r.baud)
        else p.period - 1,
      zero :=
        if r.state == IDLE then !start
        else if r.zero && r.state == 9 then true
        else r.baud == 1,
      line := if start then false else if r.zero then r.data[7] else r.line)
  }

  const POWER_ON := Regs(IDLE, true, [true, true, true, true, true, true, true, true], 0, true, true)

  /** The byte after `n` shifts. */
  function Shifted(data: octet, n: nat): (s: octet)
    requires n <= 9
  {
    if n <= 8 then Ones(n) + data[..8 - n] else Ones(8)
  }

  /** While a frame is on the line the registers are determined by its byte and its age. */
  predicate Sending(p: Params, r: Regs, f: Frame)
    requires p.Valid() && f.Frame?
  {
    var slot, tick := f.age / p.period, f.age % p.period;
    && slot <= 9 && r.state == slot && r.busy && r.data == Shifted(f.data, slot)
    && r.baud == p.period - 1 - tick && r.zero == (tick == p.period - 1) && r.line == SlotBit(f.data, slot)
  }

  predicate Resting(r: Regs) {
    r.state == IDLE && r.data == Ones(8) && r.baud == 0 && r.zero && r.line
  }

  /** A frame keeps the transmitter busy for exactly ten bit periods. */
  predicate Transmits(p: Params, r: Regs, f: Frame)
    requires p.Valid()
  {
    if f.Frame? && f.age < 10 * p.period then Sending(p, r, f) else Resting(r)
  }

  /** The frame one clock on: a byte accepted starts one. */
  function NextFrame(r: Regs, f: Frame, i: Input): Frame {
    if Accepts(r, i) then Frame(i.data, 0) else if f.Frame? then f.(age := f.age + 1) else f
  }

  lemma LineIs(p: Params, r: Regs, f: Frame)
    requires p.Valid() && Transmits(p, r, f)
    ensures r.line == Line(p.period, f)
  {
    if f.Frame? && f.age >= 10 * p.period {
      DivAtLeast(f.age, p.period, 10);
    }
  }

  lemma ShiftOnce(data: octet, n: nat)
    requires n < 9
    ensures ShiftIn(true, Shifted(data, n)) == Shifted(data, n + 1)
    ensures Shifted(data, n)[7] == SlotBit(data, n + 1)
  {
  }

  lemma SendingStep(p: Params, r: Regs, f: Frame, i: Input)
    requires p.Valid() && f.Frame? && f.age < 10 * p.period && Sending(p, r, f)
    ensures !Accepts(r, i) && Transmits(p, Next(p, r, i), f.(age := f.age + 1))
  {
    hide Shifted, SlotBit;
    var slot, tick := f.age / p.period, f.age % p.period;
    DivStep(f.age, p.period);
    assert f.age == slot * p.period + tick;
    if tick == p.period - 1 {
      if slot < 9 {
        ShiftOnce(f.data, slot);
        LastTick(p.period, slot, f.age);
      } else {
        AllOut(f.data);
      }
    } else {
      NotLastTick(p.period, slot, tick, f.age);
    }
  }

  lemma AllOut(data: octet)
    ensures ShiftIn(true, Shifted(data, 9)) == Ones(8) && Shifted(data, 9)[7]
  {
  }

  lemma LastTick(period: nat, slot: nat, age: nat)
    requires slot < 9 && age + 1 == slot * period + period
    ensures age + 1 < 10 * period || period == 0
  {
    assert (slot + 1) * period == slot * period + period;
    assert (9 - slot) * period >= 0;
  }

  lemma NotLastTick(period: nat, slot: nat, tick: nat, age: nat)
    requires slot <= 9 && tick + 1 < period && age == slot * period + tick
    ensures age + 1 < 10 * period
  {
    assert (9 - slot) * period >= 0;
  }

  lemma RestingStep(p: Params, r: Regs, i: Input)
    requires p.Valid() && Resting(r)
    ensures Accepts(r, i) ==> Sending(p, Next(p, r, i), Frame(i.data, 0))
    ensures !Accepts(r, i) ==> Resting(Next(p, r, i)) && !Next(p, r, i).busy
  {
    DivModUnique(0, p.period, 0, 0);
    assert Ones(0) + i.data[..8] == i.data;
    assert ShiftIn(true, Ones(8)) == Ones(8);
  }

  /** Ten bit periods after its last byte the transmitter is free. */
  lemma BecomesFree(p: Params, r: Regs, f: Frame, i: Input)
    requires p.Valid() && Transmits(p, r, f) && !Accepts(r, i)
    requires f.Frame? ==> f.age + 1 >= 10 * p.period
    ensures !Next(p, r, i).busy
  {
    if f.Frame? && f.age < 10 * p.period {
      DivModUnique(f.age, p.period, 9, p.period - 1);
    } else {
      RestingStep(p, r, i);
    }
  }

  /** On every clock, whatever the timing of the writes: a byte is accepted only when the frame
      before it is complete, and the line then carries its frame. */
  lemma TransmitsStep(p: Params, r: Regs, f: Frame, i: Input)
    requires p.Valid() && Transmits(p, r, f)
    ensures Transmits(p, Next(p, r, i), NextFrame(r, f, i))
    ensures Follows(10 * p.period + 1, f, NextFrame(r, f, i))
  {
    hide Sending, Resting, Next;
    if f.Frame? && f.age < 10 * p.period {
      SendingStep(p, r, f, i);
    } else {
      RestingStep(p, r, i);
    }
  }

  // ---- The registers ------------------------------------------------------------------------

  class Transmitter {
    const p: Params
    var state: nat
    var busy: bool
    var data: octet
    var baud: nat
    var zero: bool
    var line: bool

    function Registers(): Regs
      reads this
    {
      Regs(state, busy, data, baud, zero, line)
    }

    constructor (p: Params)
      requires p.Valid()
      ensures this.p == p && Registers() == POWER_ON && Transmits(p, Registers(), None)
    {
      this.p := p;
      state, busy, data := IDLE, true, [true, true, true, true, true, true, true, true];
      baud, zero, line := 0, true, true;
    }

    method Clock(i: Input)
      requires p.Valid()
      modifies this
      ensures Registers() == Next(p, old(Registers()), i)
    {
      var start := i.wr && !busy;
      var state', busy' := state, true;
      if zero {
        if state > 8 {
          state', busy' := IDLE, false;
          if start {
            state', busy' := 0, true;
          }
        } else {
          state' := state + 1;
        }
      }
      var data', line' := data, line;
      if start {
        data', line' := i.data, false;
      } else if zero {
        data', line' := ShiftIn(true, data), data[7];
      }
      var baud', zero' := baud, baud == 1;
      if state == IDLE {
        baud', zero' := 0, true;
        if start {
          baud', zero' := p.period - 1, false;
        }
      } else if zero && state == 9 {
        baud', zero' := 0, true;
      } else if !zero {
        baud' := if baud == 0 then p.limit - 1 else baud - 1;
      } else {
        baud' := p.period - 1;
      }
      state, busy, data, line, baud, zero := state', busy', data', line', baud', zero';
    }
  }
}
