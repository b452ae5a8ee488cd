/** The byte-wide SPI engine of rtl/llsdspi.v, without bus arbitration. */
module LlSdSpi {
  import opened Bits

  const IDLE: nat := 0
  const HOTIDLE: nat := 1
  const WAIT: nat := 2
  const START: nat := 3

  datatype Input = Input(speed: nat, cs: bool, stb: bool, data: octet, miso: bool)

  /** The clock divider, the state machine, the two shift registers, the pins, the answer, and
      the startup counter. */
  datatype Regs = Regs(
    count: nat, zero: bool, state: nat, idle: bool, byte: octet, ireg: octet,
    csn: bool, sclk: bool, mosi: bool, stb: bool, out: octet,
    hold: bool, startup: nat, past: bool)

  predicate Accepted(r: Regs, i: Input) {
    i.stb && r.idle && i.cs
  }

  function ShiftLeft(data: octet, bit: bool): octet {
    data[1..] + [bit]
  }

  /** r_clk_counter and r_z_counter; `limit` is 2^SPDBITS. */
  function NextCount(limit: nat, r: Regs, i: Input): (nat, bool)
    requires 0 < limit
  {
    if !r.hold && !i.cs then (0, true)
    else if r.hold || Accepted(r, i) then (i.speed, i.speed == 0)
    else if !r.zero then (if r.count == 0 then limit - 1 else r.count - 1, r.count == 1)
    else if r.state > WAIT && !r.idle then
      if r.state >= START + 8 then (0, true) else (i.speed, i.speed == 0)
    else (r.count, r.zero)
  }

  /** The state machine, before the startup hold has its say. */
  function NextState(r: Regs, i: Input): Regs {
    var s := r.(stb := false, csn := r.hold || !i.cs);
    if !i.cs then s.(state := IDLE, idle := r.zero, sclk := true)
    else if !r.zero then s.(idle := false)
    else if r.state == IDLE then
      if Accepted(r, i) then s.(byte := i.data, state := START, idle := false, mosi := i.data[0], sclk := true)
      else s.(idle := !r.hold, sclk := true)
    else if r.state == WAIT then s.(idle := false, sclk := true, state := START)
    else if r.state == HOTIDLE then
      if Accepted(r, i) then
        s.(byte := ShiftLeft(i.data, true), state := START + 1, idle := false, mosi := i.data[0], sclk := false)
      else s.(idle := true, sclk := true)
    else if r.sclk then
      var t := s.(mosi := r.byte[0], byte := ShiftLeft(r.byte, true));
      if r.state >= START + 8 then t.(state := HOTIDLE, idle := true, stb := true, out := r.ireg, sclk := true)
      else t.(state := r.state + 1, sclk := false)
    else s.(ireg := ShiftLeft(r.ireg, i.miso), sclk := true)
  }

  /** Seventy-odd clocks before anything else may happen. */
  function NextStartup(r: Regs): (bool, nat) {
    if r.hold && !r.past && r.sclk then (r.startup > 0, if r.startup > 0 then r.startup - 1 else 0)
    else (r.hold, r.startup)
  }

  function Next(limit: nat, r: Regs, i: Input): Regs
    requires 0 < limit
  {
    var (count', zero') := NextCount(limit, r, i);
    var (hold', startup') := NextStartup(r);
    var s := NextState(r, i).(count := count', zero := zero', hold := hold', startup := startup', past := r.sclk);
    if r.hold then s.(idle := false, csn := true, sclk := if r.zero then !r.sclk else s.sclk) else s
  }

  // ---- A transfer -------------------------------------------------------------------------------

  /** Between bytes, or with SCK high or low after a number of rising edges. */
  datatype Phase = Resting(hot: bool) | High(data: octet, got: seq<bool>) | Low(data: octet, got: seq<bool>)

  predicate Received(ireg: octet, got: seq<bool>) {
    |got| <= 8 && ireg[8 - |got|..] == got
  }

  predicate Follows(r: Regs, ph: Phase) {
    && !r.hold && r.zero == (r.count == 0)
    && match ph
       case Resting(hot) => r.state == (if hot then HOTIDLE else IDLE) && r.zero && r.sclk
       case High(data, got) =>
         && Received(r.ireg, got) && r.state == START + |got| && r.sclk && !r.idle && !r.csn
         && r.byte == data[|got|..] + Ones(|got|)
       case Low(data, got) =>
         && Received(r.ireg, got) && |got| < 8 && r.state == START + 1 + |got| && !r.sclk && !r.idle && !r.csn
         && r.mosi == data[|got|] && r.byte == data[|got| + 1..] + Ones(|got| + 1)
  }

  function NextPhase(r: Regs, ph: Phase, i: Input): Phase {
    if Accepted(r, i) then (if r.state == HOTIDLE then Low(i.data, []) else High(i.data, []))
    else if !r.zero then ph
    else match ph
      case Resting(_) => ph
      case High(data, got) => if |got| < 8 then Low(data, got) else Resting(true)
      case Low(data, got) => High(data, got + [i.miso])
  }

  lemma FollowsResting(limit: nat, r: Regs, hot: bool, i: Input)
    requires 0 < limit && i.cs && Follows(r, Resting(hot))
    ensures Follows(Next(limit, r, i), NextPhase(r, Resting(hot), i))
  {
    assert ShiftLeft(i.data, true) == i.data[1..] + Ones(1);
    assert i.data == i.data[0..] + Ones(0);
  }

  lemma ByteShifts(data: octet, n: nat)
    requires n < 8
    ensures ShiftLeft(data[n..] + Ones(n), true) == data[n + 1..] + Ones(n + 1) && (data[n..] + Ones(n))[0] == data[n]
  {
  }

  lemma FollowsHigh(limit: nat, r: Regs, data: octet, got: seq<bool>, i: Input)
    requires 0 < limit && i.cs && Follows(r, High(data, got))
    ensures Follows(Next(limit, r, i), NextPhase(r, High(data, got), i))
    ensures r.zero && |got| == 8 <==> Next(limit, r, i).stb
    ensures |got| == 8 ==> r.ireg == got
  {
    hide ShiftLeft;
    if |got| < 8 {
      ByteShifts(data, |got|);
    }
  }

  lemma ReceivedOne(ireg: octet, got: seq<bool>, bit: bool)
    requires Received(ireg, got) && |got| < 8
    ensures Received(ShiftLeft(ireg, bit), got + [bit])
  {
  }

  lemma FollowsLow(limit: nat, r: Regs, data: octet, got: seq<bool>, i: Input)
    requires 0 < limit && i.cs && Follows(r, Low(data, got))
    ensures Follows(Next(limit, r, i), NextPhase(r, Low(data, got), i))
  {
    hide ShiftLeft, Received;
    ReceivedOne(r.ireg, got, i.miso);
    LowBounds(r, data, got);
  }

  lemma LowBounds(r: Regs, data: octet, got: seq<bool>)
    requires Follows(r, Low(data, got))
    ensures |got| < 8
  {
  }

  lemma FollowsStep(limit: nat, r: Regs, ph: Phase, i: Input)
    requires 0 < limit && i.cs && Follows(r, ph)
    ensures Follows(Next(limit, r, i), NextPhase(r, ph, i))
  {
    hide Follows, Next, NextPhase;
    match ph
    case Resting(hot) => FollowsResting(limit, r, hot, i);
    case High(data, got) => FollowsHigh(limit, r, data, got, i);
    case Low(data, got) => FollowsLow(limit, r, data, got, i);
  }

  /** After startup, deselecting brings the engine to rest from any state, and ready for a byte at
      once unless a half bit was running. */
  lemma DeselectRests(limit: nat, r: Regs, i: Input)
    requires 0 < limit && !r.hold && !i.cs
    ensures Follows(Next(limit, r, i), Resting(false)) && (Next(limit, r, i).idle <==> r.zero)
  {
  }

  /** At rest the engine is idle one clock on, and stays so. */
  lemma BecomesIdle(limit: nat, r: Regs, hot: bool, i: Input)
    requires 0 < limit && i.cs && Follows(r, Resting(hot)) && !Accepted(r, i)
    ensures Next(limit, r, i).idle && Follows(Next(limit, r, i), Resting(hot))
  {
    hide ShiftLeft;
  }

  /** So a byte held out to an engine at rest is taken on this clock or the next. */
  lemma HeldIsTaken(limit: nat, r: Regs, hot: bool, i: Input, j: Input)
    requires 0 < limit && Follows(r, Resting(hot)) && i.cs && j.cs && i.stb && j.stb
    ensures Accepted(r, i) <==> r.idle
    ensures !Accepted(r, i) ==> Follows(Next(limit, r, i), Resting(hot)) && Accepted(Next(limit, r, i), j)
  {
    hide Next, Follows;
    if !Accepted(r, i) {
      BecomesIdle(limit, r, hot, i);
    }
  }

  // ---- What the card sees -------------------------------------------------------------------------

  /** A byte taken from the bus, a rising edge of SCK with chip select before and after it and the
      two data lines, an answer given. */
  datatype Event = Take(data: octet) | Rise(csn: bool, mosi: bool, miso: bool) | Give(data: octet)

  function Events(limit: nat, r: Regs, i: Input): seq<Event>
    requires 0 < limit
  {
    var s := Next(limit, r, i);
    (if Accepted(r, i) then [Take(i.data)] else [])
    + (if !r.sclk && s.sclk then [Rise(r.csn || s.csn, r.mosi, i.miso)] else [])
    + (if s.stb then [Give(s.out)] else [])
  }

  function Rises(data: octet, got: seq<bool>): (s: seq<Event>)
    requires |got| <= 8
  {
    seq(|got|, k requires 0 <= k < |got| => Rise(false, data[k], got[k]))
  }

  datatype Exchange = Exchange(sent: octet, received: octet)

  /** Taking a byte, eight rising edges with the card selected, giving the answer. */
  function Whole(x: Exchange): seq<Event> {
    [Take(x.sent)] + Rises(x.sent, x.received) + [Give(x.received)]
  }

  function All(done: seq<Exchange>): seq<Event> {
    if |done| == 0 then [] else All(done[..|done| - 1]) + Whole(done[|done| - 1])
  }

  function Begun(ph: Phase): seq<Event>
    requires ph.Resting? || |ph.got| <= 8
  {
    if ph.Resting? then [] else [Take(ph.data)] + Rises(ph.data, ph.got)
  }

  datatype Session = Session(regs: Regs, phase: Phase, done: seq<Exchange>, log: seq<Event>)

  function Step(limit: nat, s: Session, i: Input): Session
    requires 0 < limit
  {
    var ph := s.phase;
    Session(Next(limit, s.regs, i), NextPhase(s.regs, ph, i),
            if s.regs.zero && ph.High? && |ph.got| == 8 then s.done + [Exchange(ph.data, ph.got)] else s.done,
            s.log + Events(limit, s.regs, i))
  }

  /** Everything so far is whole exchanges and the one under way. */
  ghost predicate Orderly(s: Session)
  {
    && Follows(s.regs, s.phase) && (s.phase.Resting? || |s.phase.got| <= 8)
    && s.log == All(s.done) + Begun(s.phase)
  }

  lemma AllOne(done: seq<Exchange>, x: Exchange)
    ensures All(done + [x]) == All(done) + Whole(x)
  {
    assert (done + [x])[..|done|] == done;
  }

  lemma EventsResting(limit: nat, r: Regs, hot: bool, i: Input)
    requires 0 < limit && i.cs && Follows(r, Resting(hot))
    ensures Events(limit, r, i) == Begun(NextPhase(r, Resting(hot), i))
  {
    hide NextCount, ShiftLeft;
    assert Rises(i.data, []) == [];
  }

  lemma EventsHigh(limit: nat, r: Regs, data: octet, got: seq<bool>, i: Input)
    requires 0 < limit && i.cs && Follows(r, High(data, got))
    ensures |got| <= 8 && Events(limit, r, i) == if r.zero && |got| == 8 then [Give(got)] else []
  {
    hide NextCount, NextStartup, ShiftLeft, Received;
    FollowsHigh(limit, r, data, got, i);
    if r.zero && |got| == 8 {
      AnswerIs(limit, r, data, got, i);
    }
  }

  lemma EventsLow(limit: nat, r: Regs, data: octet, got: seq<bool>, i: Input)
    requires 0 < limit && i.cs && Follows(r, Low(data, got))
    ensures |got| < 8 && Events(limit, r, i) == if r.zero then [Rise(false, data[|got|], i.miso)] else []
    ensures r.zero ==> Next(limit, r, i).mosi == r.mosi
  {
    hide NextCount, ShiftLeft, Received;
    LowBounds(r, data, got);
  }

  lemma RisesOne(data: octet, got: seq<bool>, bit: bool)
    requires |got| < 8
    ensures Rises(data, got + [bit]) == Rises(data, got) + [Rise(false, data[|got|], bit)]
  {
  }

  lemma OrderlyStep(limit: nat, s: Session, i: Input)
    requires 0 < limit && i.cs && Orderly(s)
    ensures Orderly(Step(limit, s, i))
  {
    hide Follows, Next, Events, All, Rises, Whole, Received;
    FollowsStep(limit, s.regs, s.phase, i);
    match s.phase
    case Resting(hot) =>
      EventsResting(limit, s.regs, hot, i);
    case High(data, got) =>
      EventsHigh(limit, s.regs, data, got, i);
      NotAccepted(s.regs, s.phase, i);
      if s.regs.zero && |got| == 8 {
        AllOne(s.done, Exchange(data, got));
        WholeIs(data, got);
      }
    case Low(data, got) =>
      EventsLow(limit, s.regs, data, got, i);
      NotAccepted(s.regs, s.phase, i);
      RisesOne(data, got, i.miso);
  }

  lemma WholeIs(data: octet, got: seq<bool>)
    requires |got| == 8
    ensures Whole(Exchange(data, got)) == Begun(High(data, got)) + [Give(got)]
  {
  }

  lemma NotAccepted(r: Regs, ph: Phase, i: Input)
    requires Follows(r, ph) && !ph.Resting?
    ensures !Accepted(r, i)
  {
  }

  function Run(limit: nat, s: Session, inputs: seq<Input>): Session
    requires 0 < limit
  {
    if |inputs| == 0 then s else Step(limit, Run(limit, s, inputs[..|inputs| - 1]), inputs[|inputs| - 1])
  }

  /** In every run with the card selected, at any speed and with any timing of bytes: each byte
      taken gives exactly eight rising edges of SCK, with chip select low and MOSI its bits most
      significant first,
      and then one answer, the eight values of MISO at those edges. */
  lemma {:induction false} RunOrderly(limit: nat, r: Regs, inputs: seq<Input>)
    requires 0 < limit && Follows(r, Resting(false))
    requires forall k :: 0 <= k < |inputs| ==> inputs[k].cs
    ensures Orderly(Run(limit, Session(r, Resting(false), [], []), inputs))
  {
    hide Step, Follows;
    if |inputs| == 0 {
    } else {
      RunOrderly(limit, r, inputs[..|inputs| - 1]);
      OrderlyStep(limit, Run(limit, Session(r, Resting(false), [], []), inputs[..|inputs| - 1]), inputs[|inputs| - 1]);
    }
  }

  // ---- How long it takes --------------------------------------------------------------------------

  /** Clocks until the answer, at a constant speed. */
  function Remaining(speed: nat, ph: Phase, count: nat): nat
    requires ph.High? || ph.Low?
    requires if ph.High? then |ph.got| <= 8 else |ph.got| < 8
  {
    if ph.Low? then count + 2 + (7 - |ph.got|) * (2 * speed + 2)
    else if |ph.got| == 8 then count + 1
    else count + speed + 3 + (7 - |ph.got|) * (2 * speed + 2)
  }

  lemma OneFewer(speed: nat, n: nat)
    requires n < 7
    ensures (7 - n) * (2 * speed + 2) == (7 - (n + 1)) * (2 * speed + 2) + 2 * speed + 2
  {
    MulAdd(7 - (n + 1), 1, 2 * speed + 2);
  }

  lemma CountIs(limit: nat, r: Regs, ph: Phase, i: Input)
    requires 0 < limit && i.cs && Follows(r, ph) && !ph.Resting?
    ensures Next(limit, r, i).count ==
      if !r.zero then r.count - 1 else if ph.Low? && |ph.got| == 7 then 0 else if ph.High? && |ph.got| == 8 then 0 else i.speed
  {
    hide ShiftLeft, Received;
    NotAccepted(r, ph, i);
  }

  /** The answer comes after exactly so many clocks. */
  lemma Countdown(limit: nat, r: Regs, ph: Phase, i: Input)
    requires 0 < limit && i.cs && Follows(r, ph) && !ph.Resting?
    ensures if ph.High? then |ph.got| <= 8 else |ph.got| < 8
    ensures var s, ph' := Next(limit, r, i), NextPhase(r, ph, i);
      && Follows(s, ph')
      && if Remaining(i.speed, ph, r.count) == 1 then s.stb && ph' == Resting(true)
         else !s.stb && !ph'.Resting? && (if ph'.High? then |ph'.got| <= 8 else |ph'.got| < 8)
              && Remaining(i.speed, ph', s.count) == Remaining(i.speed, ph, r.count) - 1
  {
    hide Next, Events, Received;
    FollowsStep(limit, r, ph, i);
    NotAccepted(r, ph, i);
    CountIs(limit, r, ph, i);
    match ph
    case High(data, got) =>
      FollowsHigh(limit, r, data, got, i);
      EventsHigh(limit, r, data, got, i);
    case Low(data, got) =>
      StbLow(limit, r, data, got, i);
      if |got| < 7 {
        OneFewer(i.speed, |got|);
      }
  }

  lemma StbLow(limit: nat, r: Regs, data: octet, got: seq<bool>, i: Input)
    requires 0 < limit && i.cs && Follows(r, Low(data, got))
    ensures |got| < 8 && !Next(limit, r, i).stb
  {
    hide NextCount, ShiftLeft, Received;
    LowBounds(r, data, got);
  }

  /** From the clock that takes a byte, and puts its first bit on MOSI: sixteen half bits, the last
      of them a single clock, and from a cold start one half bit more. */
  lemma TakeTime(limit: nat, r: Regs, hot: bool, i: Input)
    requires 0 < limit && i.cs && Follows(r, Resting(hot)) && Accepted(r, i)
    ensures var s, ph := Next(limit, r, i), NextPhase(r, Resting(hot), i);
      && Follows(s, ph) && (if hot then ph == Low(i.data, []) else ph == High(i.data, []))
      && Remaining(i.speed, ph, s.count) == Duration(i.speed, hot) && s.mosi == i.data[0]
  {
    hide ShiftLeft;
    FollowsResting(limit, r, hot, i);
  }

  lemma UnderWay(ph: Phase, r: Regs)
    requires Follows(r, ph) && !ph.Resting?
    ensures if ph.High? then |ph.got| <= 8 else |ph.got| < 8
  {
  }

  /** How a byte under way has come along after some clocks at one speed. */
  ghost predicate Along(speed: nat, s: Session, t: Session, clocks: nat)
    requires !s.phase.Resting? && if s.phase.High? then |s.phase.got| <= 8 else |s.phase.got| < 8
  {
    var total := Remaining(speed, s.phase, s.regs.count);
    && clocks <= total
    && if clocks < total then
         && !t.phase.Resting? && Follows(t.regs, t.phase)
         && (if t.phase.High? then |t.phase.got| <= 8 else |t.phase.got| < 8)
         && Remaining(speed, t.phase, t.regs.count) == total - clocks
         && t.phase.data == s.phase.data && t.done == s.done && (clocks > 0 ==> !t.regs.stb)
       else
         t.phase == Resting(true) && t.regs.stb && t.regs.idle && t.done == s.done + [Exchange(s.phase.data, t.regs.out)]
  }

  lemma PhaseMoves(limit: nat, s: Session, i: Input)
    requires 0 < limit && i.cs && Follows(s.regs, s.phase) && !s.phase.Resting?
    ensures var t := Step(limit, s, i);
      if t.phase.Resting? then t.regs.idle && t.done == s.done + [Exchange(s.phase.data, t.regs.out)]
      else t.phase.data == s.phase.data && t.done == s.done
  {
    NotAccepted(s.regs, s.phase, i);
    match s.phase
    case High(data, got) =>
      FollowsHigh(limit, s.regs, data, got, i);
      if s.regs.zero && |got| == 8 {
        AnswerIs(limit, s.regs, data, got, i);
      }
    case Low(data, got) =>
      LowBounds(s.regs, data, got);
  }

  lemma AnswerIs(limit: nat, r: Regs, data: octet, got: seq<bool>, i: Input)
    requires 0 < limit && i.cs && Follows(r, High(data, got)) && r.zero && |got| == 8
    ensures Next(limit, r, i).out == r.ireg && Next(limit, r, i).idle
  {
    hide NextCount, ShiftLeft, Received;
  }

  lemma AlongStep(limit: nat, speed: nat, s: Session, t: Session, clocks: nat, i: Input)
    requires 0 < limit && i.cs && i.speed == speed && !s.phase.Resting?
    requires if s.phase.High? then |s.phase.got| <= 8 else |s.phase.got| < 8
    requires Along(speed, s, t, clocks) && clocks < Remaining(speed, s.phase, s.regs.count)
    ensures Along(speed, s, Step(limit, t, i), clocks + 1)
  {
    hide Next, NextPhase, Follows, Events, Remaining;
    PhaseMoves(limit, t, i);
    Countdown(limit, t.regs, t.phase, i);
  }

  predicate Steady(speed: nat, inputs: seq<Input>) {
    forall k :: 0 <= k < |inputs| ==> inputs[k].cs && inputs[k].speed == speed
  }

  /** At a constant speed the answer to a byte under way comes after exactly the clocks that
      remain, and not before. */
  lemma {:induction false} RunAlong(limit: nat, speed: nat, s: Session, inputs: seq<Input>)
    requires 0 < limit && Follows(s.regs, s.phase) && !s.phase.Resting? && Steady(speed, inputs)
    ensures if s.phase.High? then |s.phase.got| <= 8 else |s.phase.got| < 8
    ensures |inputs| <= Remaining(speed, s.phase, s.regs.count) ==> Along(speed, s, Run(limit, s, inputs), |inputs|)
  {
    UnderWay(s.phase, s.regs);
    hide Step, Follows, Remaining;
    if 0 < |inputs| <= Remaining(speed, s.phase, s.regs.count) {
      var before, i := inputs[..|inputs| - 1], inputs[|inputs| - 1];
      RunAlong(limit, speed, s, before);
      AlongStep(limit, speed, s, Run(limit, s, before), |before|, i);
    } else if |inputs| == 0 {
      SomeRemain(speed, s.phase, s.regs.count);
    }
  }

  lemma SomeRemain(speed: nat, ph: Phase, count: nat)
    requires ph.High? || ph.Low?
    requires if ph.High? then |ph.got| <= 8 else |ph.got| < 8
    ensures Remaining(speed, ph, count) > 0
  {
    if |ph.got| < 8 {
      MulMonotonic(0, 7 - |ph.got|, 2 * speed + 2);
    }
  }

  /** From taking a byte to answering it: sixteen half bits, the last of them a single clock, and
      one half bit more from a cold start. */
  function Duration(speed: nat, hot: bool): nat {
    (if hot then 15 else 16) * (speed + 1) + 1
  }

  /** Every byte taken is finished: at a constant speed o_stb rises Duration() clocks after the
      clock that takes it, and by then the pins have seen the whole exchange, its eight rising
      edges and the answer with the eight values of MISO, and the engine is ready for the next. */
  lemma ByteCompletes(limit: nat, speed: nat, s: Session, i: Input, inputs: seq<Input>)
    requires 0 < limit && Orderly(s) && s.phase.Resting? && Accepted(s.regs, i)
    requires i.cs && i.speed == speed && Steady(speed, inputs) && |inputs| == Duration(speed, s.phase.hot)
    ensures var t := Run(limit, Step(limit, s, i), inputs);
      && t.regs.stb && t.regs.idle && Orderly(t) && t.phase == Resting(true)
      && t.done == s.done + [Exchange(i.data, t.regs.out)]
      && t.log == s.log + Whole(Exchange(i.data, t.regs.out))
  {
    hide Step, Run, Follows, Remaining, All, Whole, Duration;
    var u := Step(limit, s, i);
    TakeStep(limit, s, i);
    OrderlyStep(limit, s, i);
    RunAlong(limit, speed, u, inputs);
    StaysOrderly(limit, u, inputs);
    var t := Run(limit, u, inputs);
    AllOne(s.done, Exchange(i.data, t.regs.out));
  }

  /** Not before. */
  lemma NotEarlier(limit: nat, speed: nat, s: Session, i: Input, inputs: seq<Input>)
    requires 0 < limit && Orderly(s) && s.phase.Resting? && Accepted(s.regs, i)
    requires i.cs && i.speed == speed && Steady(speed, inputs) && 0 < |inputs| < Duration(speed, s.phase.hot)
    ensures var t := Run(limit, Step(limit, s, i), inputs); !t.regs.stb && t.done == s.done
  {
    hide Step, Run, Follows, Remaining, All, Whole, Duration, Begun;
    TakeStep(limit, s, i);
    RunAlong(limit, speed, Step(limit, s, i), inputs);
  }

  lemma TakeStep(limit: nat, s: Session, i: Input)
    requires 0 < limit && Follows(s.regs, s.phase) && s.phase.Resting? && Accepted(s.regs, i) && i.cs
    ensures var u := Step(limit, s, i);
      && Follows(u.regs, u.phase) && !u.phase.Resting? && u.phase.got == [] && u.phase.data == i.data
      && u.done == s.done && Remaining(i.speed, u.phase, u.regs.count) == Duration(i.speed, s.phase.hot)
  {
    hide Next, Events, Remaining, Duration;
    TakeTime(limit, s.regs, s.phase.hot, i);
  }

  lemma {:induction false} StaysOrderly(limit: nat, s: Session, inputs: seq<Input>)
    requires 0 < limit && Orderly(s) && forall k :: 0 <= k < |inputs| ==> inputs[k].cs
    ensures Orderly(Run(limit, s, inputs))
  {
    hide Step, Orderly;
    if |inputs| == 0 {
    } else {
      StaysOrderly(limit, s, inputs[..|inputs| - 1]);
      OrderlyStep(limit, Run(limit, s, inputs[..|inputs| - 1]), inputs[|inputs| - 1]);
    }
  }

  // ---- Startup ------------------------------------------------------------------------------------

  /** `clocks` is STARTUP_CLOCKS, not a power of two; zero leaves the hold out altogether. */
  predicate PowerOn(r: Regs, clocks: nat) {
    && r.count == 0 && r.zero && r.state == IDLE && !r.idle && r.csn && r.sclk && !r.stb && r.past
    && r.hold == (clocks > 0) && r.startup == clocks
  }

  function Clocked(limit: nat, r: Regs, inputs: seq<Input>): Regs
    requires 0 < limit
  {
    if |inputs| == 0 then r else Next(limit, Clocked(limit, r, inputs[..|inputs| - 1]), inputs[|inputs| - 1])
  }

  predicate AtSpeed(speed: nat, inputs: seq<Input>) {
    forall k :: 0 <= k < |inputs| ==> inputs[k].speed == speed
  }

  /** At speed zero, `n` clocks after power-on: SCK toggles on every clock, and each of its rising
      edges counts. */
  predicate Starting(r: Regs, clocks: nat, n: nat) {
    && r.hold && r.zero && r.count == 0 && r.state == IDLE && !r.idle && n <= 2 * clocks + 2
    && r.sclk == (n % 2 == 0) && (n > 0 ==> r.past == (n % 2 == 1))
    && (n == 0 ==> r.past) && r.startup == (if n == 0 then clocks else clocks - (n - 1) / 2)
  }

  lemma StartingStep(limit: nat, r: Regs, clocks: nat, n: nat, i: Input)
    requires 0 < limit && Starting(r, clocks, n) && i.speed == 0
    ensures n < 2 * clocks + 2 ==> Starting(Next(limit, r, i), clocks, n + 1)
    ensures n == 2 * clocks + 2 ==> Released(Next(limit, r, i))
  {
    hide ShiftLeft;
  }

  /** The hold has just ended. */
  predicate Released(r: Regs) {
    !r.hold && r.zero && r.count == 0 && r.state == IDLE && !r.idle
  }

  lemma ReleasedStep(limit: nat, r: Regs, i: Input)
    requires 0 < limit && Released(r)
    ensures Follows(Next(limit, r, i), Resting(false)) && (i.cs ==> Next(limit, r, i).idle)
  {
    hide ShiftLeft;
  }

  lemma {:induction false} RunStarting(limit: nat, r: Regs, clocks: nat, inputs: seq<Input>)
    requires 0 < limit && PowerOn(r, clocks) && clocks > 0 && AtSpeed(0, inputs) && |inputs| <= 2 * clocks + 2
    ensures Starting(Clocked(limit, r, inputs), clocks, |inputs|)
  {
    hide Next;
    if |inputs| == 0 {
    } else {
      RunStarting(limit, r, clocks, inputs[..|inputs| - 1]);
      StartingStep(limit, Clocked(limit, r, inputs[..|inputs| - 1]), clocks, |inputs| - 1, inputs[|inputs| - 1]);
    }
  }

  /** At any other speed SCK can rise only once, and the hold never ends. */
  predicate Stuck(r: Regs, clocks: nat) {
    && r.hold && r.state == IDLE && !r.idle
    && if r.zero then r.past && r.sclk && r.startup == clocks
       else if r.past then r.startup == clocks || (r.sclk && r.startup + 1 == clocks)
       else if r.sclk then r.startup == clocks
       else r.startup == clocks
  }

  lemma StuckStep(limit: nat, r: Regs, clocks: nat, i: Input)
    requires 0 < limit && Stuck(r, clocks) && clocks > 0 && i.speed > 0
    ensures Stuck(Next(limit, r, i), clocks)
  {
    hide ShiftLeft;
  }

  lemma {:induction false} RunStuck(limit: nat, r: Regs, clocks: nat, speed: nat, inputs: seq<Input>)
    requires 0 < limit && PowerOn(r, clocks) && clocks > 0 && speed > 0 && AtSpeed(speed, inputs)
    ensures Stuck(Clocked(limit, r, inputs), clocks)
  {
    hide Next;
    if |inputs| == 0 {
    } else {
      RunStuck(limit, r, clocks, speed, inputs[..|inputs| - 1]);
      StuckStep(limit, Clocked(limit, r, inputs[..|inputs| - 1]), clocks, inputs[|inputs| - 1]);
    }
  }

  lemma {:induction false} RunReleased(limit: nat, r: Regs, clocks: nat, inputs: seq<Input>)
    requires 0 < limit && PowerOn(r, clocks) && clocks > 0 && AtSpeed(0, inputs) && |inputs| >= 2 * clocks + 3
    ensures !Clocked(limit, r, inputs).hold
    ensures |inputs| == 2 * clocks + 3 ==> Released(Clocked(limit, r, inputs))
  {
    hide Next;
    var before, i := inputs[..|inputs| - 1], inputs[|inputs| - 1];
    if |inputs| == 2 * clocks + 3 {
      RunStarting(limit, r, clocks, before);
      StartingStep(limit, Clocked(limit, r, before), clocks, |before|, i);
    } else {
      RunReleased(limit, r, clocks, before);
      HoldIsOnce(limit, Clocked(limit, r, before), i);
    }
  }

  lemma HoldIsOnce(limit: nat, r: Regs, i: Input)
    requires 0 < limit && !r.hold
    ensures !Next(limit, r, i).hold
  {
    hide NextState, NextCount;
  }

  /** At a constant speed the startup hold ends if and only if the speed is zero, and then after
      exactly 2 `clocks` + 3 clocks.  The divider is reloaded on every clock of the hold, so that
      at any other speed it never runs out and SCK never toggles. */
  lemma StartupEndsIff(limit: nat, r: Regs, clocks: nat, speed: nat, inputs: seq<Input>)
    requires 0 < limit && PowerOn(r, clocks) && clocks > 0 && AtSpeed(speed, inputs)
    ensures !Clocked(limit, r, inputs).hold <==> speed == 0 && |inputs| >= 2 * clocks + 3
  {
    hide Next, Clocked, PowerOn;
    if speed > 0 {
      RunStuck(limit, r, clocks, speed, inputs);
    } else if |inputs| >= 2 * clocks + 3 {
      RunReleased(limit, r, clocks, inputs);
    } else {
      RunStarting(limit, r, clocks, inputs);
    }
  }

  /** Then, one clock later, the engine is at rest, and if it is selected ready for its first
      byte. */
  lemma StartupRests(limit: nat, r: Regs, clocks: nat, inputs: seq<Input>, i: Input)
    requires 0 < limit && PowerOn(r, clocks) && AtSpeed(0, inputs)
    requires |inputs| == if clocks > 0 then 2 * clocks + 3 else 0
    ensures var t := Clocked(limit, r, inputs + (if clocks > 0 then [i] else []));
      Follows(t, Resting(false)) && (clocks > 0 && i.cs ==> t.idle)
  {
    hide Next;
    if clocks > 0 {
      RunReleased(limit, r, clocks, inputs);
      ReleasedStep(limit, Clocked(limit, r, inputs), i);
      assert (inputs + [i])[..|inputs|] == inputs;
    }
  }

  // ---- Chip select --------------------------------------------------------------------------------

  lemma HeldHigh(limit: nat, r: Regs, i: Input)
    requires 0 < limit && (r.hold ==> r.csn)
    ensures Next(limit, r, i).hold ==> r.hold && Next(limit, r, i).csn
    ensures Next(limit, r, i).csn <==> r.hold || !i.cs
  {
    hide NextCount, ShiftLeft;
  }

  /** From power-on, in every run: chip select is high throughout the startup hold and for the clock
      after it, and from then on low exactly if i_cs was high on the clock before. */
  lemma {:induction false} SelectFollows(limit: nat, r: Regs, clocks: nat, inputs: seq<Input>)
    requires 0 < limit && PowerOn(r, clocks)
    ensures var t := Clocked(limit, r, inputs); t.hold ==> t.csn
    ensures |inputs| > 0 ==>
      var before := Clocked(limit, r, inputs[..|inputs| - 1]);
      !Clocked(limit, r, inputs).csn <==> !before.hold && inputs[|inputs| - 1].cs
  {
    hide Next;
    if |inputs| == 0 {
    } else {
      SelectFollows(limit, r, clocks, inputs[..|inputs| - 1]);
      HeldHigh(limit, Clocked(limit, r, inputs[..|inputs| - 1]), inputs[|inputs| - 1]);
    }
  }

  // ---- The registers ------------------------------------------------------------------------------

  datatype Divider = Divider(count: nat, zero: bool)
  datatype Shifters = Shifters(byte: octet, ireg: octet)
  datatype Pins = Pins(csn: bool, sclk: bool, mosi: bool)
  datatype Answer = Answer(stb: bool, out: octet)
  datatype Startup = Startup(hold: bool, count: nat, past: bool)

  class Core {
    const limit: nat
    var clk: Divider
    var state: nat
    var idle: bool
    var shift: Shifters
    var pins: Pins
    var answer: Answer
    var start: Startup

    function Registers(): Regs
      reads this
    {
      Regs(clk.count, clk.zero, state, idle, shift.byte, shift.ireg, pins.csn, pins.sclk, pins.mosi,
           answer.stb, answer.out, start.hold, start.count, start.past)
    }

    /** `clocks` is STARTUP_CLOCKS. */
    constructor (limit: nat, clocks: nat)
      requires 0 < limit
      ensures this.limit == limit && PowerOn(Registers(), clocks)
    {
      this.limit := limit;
      clk, state, idle := Divider(0, true), IDLE, false;
      shift, pins := Shifters(Zeros(8), Zeros(8)), Pins(true, true, false);
      answer, start := Answer(false, Zeros(8)), Startup(clocks > 0, clocks, true);
    }

    method DividerBlock(i: Input) returns (c: Divider)
      requires 0 < limit
      ensures var r := Next(limit, Registers(), i); c == Divider(r.count, r.zero)
    {
      c := clk;
      if !start.hold && !i.cs {
        c := Divider(0, true);
      } else if start.hold || (i.stb && idle && i.cs) {
        c := Divider(i.speed, i.speed == 0);
      } else if !clk.zero {
        c := Divider(if clk.count == 0 then limit - 1 else clk.count - 1, clk.count == 1);
      } else if state > WAIT && !idle {
        if state >= START + 8 {
          c := Divider(0, true);
        } else {
          c := Divider(i.speed, i.speed == 0);
        }
      }
    }

    method StartupBlock(ghost i: Input) returns (s: Startup)
      requires 0 < limit
      ensures var r := Next(limit, Registers(), i); s == Startup(r.hold, r.startup, r.past)
    {
      s := start.(past := pins.sclk);
      if start.hold && !start.past && pins.sclk {
        if start.count > 0 {
          s := s.(count := start.count - 1);
        }
        s := s.(hold := start.count > 0);
      }
    }

    /** The state machine while the card is selected and a half bit has passed. */
    static method Advance(r: Regs, i: Input) returns (s: Regs)
      requires i.cs && r.zero
      ensures s == NextState(r, i)
    {
      s := r.(stb := false, csn := r.hold);
      var accepted := i.stb && r.idle;
      if r.state == IDLE {
        s := s.(sclk := true, idle := !r.hold);
        if accepted {
          s := s.(byte := i.data, state := START, idle := false, mosi := i.data[0]);
        }
      } else if r.state == WAIT {
        s := s.(idle := false, sclk := true, state := START);
      } else if r.state == HOTIDLE {
        s := s.(sclk := true);
        if accepted {
          s := s.(byte := ShiftLeft(i.data, true), state := START + 1, idle := false, mosi := i.data[0], sclk := false);
        } else {
          s := s.(idle := true);
        }
      } else if r.sclk {
        s := s.(mosi := r.byte[0], byte := ShiftLeft(r.byte, true), sclk := false);
        if r.state >= START + 8 {
          s := s.(state := HOTIDLE, idle := true, stb := true, out := r.ireg, sclk := true);
        } else {
          s := s.(state := r.state + 1);
        }
      } else {
        s := s.(ireg := ShiftLeft(r.ireg, i.miso), sclk := true);
      }
    }

    static method StateBlock(r: Regs, i: Input) returns (s: Regs)
      ensures s == NextState(r, i)
    {
      if !i.cs {
        s := r.(stb := false, csn := true, state := IDLE, idle := r.zero, sclk := true);
      } else if !r.zero {
        s := r.(stb := false, csn := r.hold, idle := false);
      } else {
        s := Advance(r, i);
      }
    }

    method Clock(i: Input)
      requires 0 < limit
      modifies this
      ensures Registers() == Next(limit, old(Registers()), i)
    {
      hide NextState;
      var r := Registers();
      var c := DividerBlock(i);
      var t := StartupBlock(i);
      var s := StateBlock(r, i);
      s := s.(count := c.count, zero := c.zero, hold := t.hold, startup := t.count, past := t.past);
      if r.hold {
        s := s.(idle := false, csn := true);
        if r.zero {
          s := s.(sclk := !r.sclk);
        }
      }
      assert s == Next(limit, r, i);
      Load(s);
    }

    method Load(s: Regs)
      modifies this
      ensures Registers() == s
    {
      clk, start, state, idle := Divider(s.count, s.zero), Startup(s.hold, s.startup, s.past), s.state, s.idle;
      shift, pins, answer := Shifters(s.byte, s.ireg), Pins(s.csn, s.sclk, s.mosi), Answer(s.stb, s.out);
    }
  }
}
