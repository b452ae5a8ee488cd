/** The plain scope of rtl/wbscope.v, with SYNCHRONOUS set: trigger, holdoff and readout. */
module WbScope {
  import opened Ring
  import opened ScopeMemory

  /** 2^LGMEM words of memory and 2^HOLDOFFBITS, HOLDOFFBITS greater than one. */
  datatype Params = Params(depth: nat, holdoffLimit: nat) {
    predicate Valid() {
      depth > 0 && holdoffLimit >= 4
    }
  }

  datatype Input = Input(ce: bool, trigger: bool, data: nat, stb: bool, we: bool, addr: bool, bus: nat)

  /** br_config and br_holdoff. */
  datatype Config = Config(running: bool, manual: bool, disable: bool, holdoff: nat)

  /** dr_triggered, counter and dr_stopped. */
  datatype Stop = Stop(triggered: bool, counter: nat, stopped: bool)

  /** mem, waddr, dr_primed and data_pipe. */
  datatype Store = Store(mem: seq<nat>, waddr: nat, primed: bool, pipe: nat)

  datatype Regs = Regs(config: Config, stop: Stop, store: Store, reader: Reader<nat>, readAddress: bool) {
    predicate Sized(p: Params) {
      && |store.mem| == p.depth && store.waddr < p.depth
      && reader.raddr < p.depth && reader.thisAddr < p.depth
    }

    predicate Reset() {
      !config.running
    }

    predicate Trigger(i: Input) {
      store.primed && ((i.trigger && !config.disable) || config.manual)
    }
  }

  predicate Configures(i: Input) {
    i.stb && i.we && !i.addr
  }

  function NextConfig(p: Params, c: Config, i: Input): Config
    requires p.Valid()
  {
    var top := i.bus / 0x8000_0000 % 2 == 1;
    if Configures(i) then
      Config(!c.running || top, i.bus / 0x800_0000 % 2 == 1, i.bus / 0x400_0000 % 2 == 1,
             if top then c.holdoff else i.bus % p.holdoffLimit)
    else c.(running := true)
  }

  function NextStop(p: Params, r: Regs, i: Input): Stop
    requires p.Valid()
  {
    var s := r.stop;
    Stop(
      triggered := !r.Reset() && (s.triggered || (i.ce && r.Trigger(i))),
      counter :=
        if r.Reset() then 0
        else if i.ce && s.triggered && !s.stopped then
          (if s.counter + 1 == p.holdoffLimit then 0 else s.counter + 1)
        else s.counter,
      stopped := s.triggered && !r.Reset() && s.counter >= r.config.holdoff)
  }

  predicate Records(r: Regs, i: Input) {
    i.ce && !r.stop.stopped
  }

  function NextStore(p: Params, r: Regs, i: Input): Store
    requires p.Valid() && r.Sized(p)
  {
    var s := r.store;
    var mem := if Records(r, i) then s.mem[s.waddr := s.pipe] else s.mem;
    var pipe := if i.ce then i.data else s.pipe;
    if r.Reset() then Store(mem, 0, false, pipe)
    else if Records(r, i) then Store(mem, Wrap(p.depth, s.waddr + 1), s.primed || s.waddr + 1 == p.depth, pipe)
    else Store(mem, s.waddr, s.primed, pipe)
  }

  predicate ReadStrobe(i: Input) {
    i.stb && i.addr && !i.we
  }

  /** The register on the bus is steered by the address registered with the strobe. */
  function NextRead(p: Params, r: Regs, i: Input): Reader<nat>
    requires p.Valid() && r.Sized(p)
  {
    NextReader(p.depth, r.reader, r.store.mem, r.store.waddr, i.data, r.Reset() || Configures(i), ReadStrobe(i),
               r.stop.stopped,
               if !r.readAddress then SelectControl else if !r.stop.stopped then SelectLive else SelectMemory)
  }

  function Next(p: Params, r: Regs, i: Input): (r': Regs)
    requires p.Valid() && r.Sized(p)
    ensures r'.Sized(p)
  {
    Regs(NextConfig(p, r.config, i), NextStop(p, r, i), NextStore(p, r, i), NextRead(p, r, i), i.addr)
  }

  // ---- What has been recorded ----------------------------------------------------------------

  /** Since the last reset: the samples taken, the words written, and the sample that triggered. */
  datatype History = History(samples: seq<nat>, log: seq<nat>, trigger: nat)

  function NextHistory(r: Regs, h: History, i: Input): History {
    if r.Reset() then History([], [], 0)
    else
      History(
        if i.ce then h.samples + [i.data] else h.samples,
        if Records(r, i) then h.log + [r.store.pipe] else h.log,
        if !r.stop.triggered && i.ce && r.Trigger(i) then |h.samples| else h.trigger)
  }

  /** The words written are one sample behind the input. */
  ghost predicate Recorded(r: Regs, h: History)
  {
    && |h.log| <= |h.samples|
    && (!r.stop.stopped ==> |h.log| == |h.samples|)
    && (|h.samples| > 0 && !r.stop.stopped ==> r.store.pipe == h.samples[|h.samples| - 1])
    && forall k :: 0 < k < |h.log| ==> h.log[k] == h.samples[k - 1]
  }

  /** The holdoff counts the samples after the trigger.  Once the scope has stopped the counter
      is one ahead of the holdoff, or equal to it if no sample came on the last clock. */
  ghost predicate Held(p: Params, r: Regs, h: History, holdoff: nat)
  {
    && r.config.holdoff == holdoff < p.holdoffLimit - 1
    && (r.stop.stopped ==> r.stop.triggered)
    && (!r.stop.triggered ==> r.stop.counter == 0)
    && (r.stop.triggered ==> |h.log| == h.trigger + 1 + r.stop.counter && h.trigger >= p.depth)
    && (r.stop.triggered && !r.stop.stopped ==> r.stop.counter <= holdoff)
    && (r.stop.stopped ==> holdoff <= r.stop.counter <= holdoff + 1)
  }

  ghost predicate Invariant(p: Params, r: Regs, h: History, holdoff: nat)
  {
    && p.Valid() && r.Sized(p) && !r.Reset()
    && Recorded(r, h) && Held(p, r, h, holdoff)
    && Holds(p.depth, r.store.mem, r.store.waddr, r.store.primed, h.log)
    && (!r.stop.stopped ==> r.reader.raddr == 0)
  }

  lemma RecordedStep(p: Params, r: Regs, h: History, i: Input, holdoff: nat)
    requires Invariant(p, r, h, holdoff) && !Configures(i)
    ensures Recorded(Next(p, r, i), NextHistory(r, h, i))
  {
    hide NextRead, Holds;
  }

  lemma HeldStep(p: Params, r: Regs, h: History, i: Input, holdoff: nat)
    requires Invariant(p, r, h, holdoff) && !Configures(i)
    ensures Held(p, Next(p, r, i), NextHistory(r, h, i), holdoff)
  {
    hide NextRead, NextStore;
  }

  lemma StoreStep(p: Params, r: Regs, h: History, i: Input)
    requires p.Valid() && r.Sized(p)
    requires r.Reset() || Holds(p.depth, r.store.mem, r.store.waddr, r.store.primed, h.log)
    ensures var s', h' := NextStore(p, r, i), NextHistory(r, h, i);
      Holds(p.depth, s'.mem, s'.waddr, s'.primed, h'.log)
  {
    hide Holds;
    if r.Reset() {
      HoldsNothing(p.depth, NextStore(p, r, i).mem);
    } else if Records(r, i) {
      HoldsOneMore(p.depth, r.store.mem, r.store.waddr, r.store.primed, h.log, r.store.pipe);
    }
  }

  lemma AddressStep(p: Params, r: Regs, h: History, i: Input, holdoff: nat)
    requires Invariant(p, r, h, holdoff) && !Configures(i)
    ensures !Next(p, r, i).stop.stopped ==> Next(p, r, i).reader.raddr == 0
  {
    hide NextStore, Holds, Recorded;
  }

  lemma InvariantStep(p: Params, r: Regs, h: History, i: Input, holdoff: nat)
    requires Invariant(p, r, h, holdoff) && !Configures(i)
    ensures Invariant(p, Next(p, r, i), NextHistory(r, h, i), holdoff)
  {
    RecordedStep(p, r, h, i, holdoff);
    HeldStep(p, r, h, i, holdoff);
    StoreStep(p, r, h, i);
    AddressStep(p, r, h, i, holdoff);
    hide NextStop, NextStore, NextRead, NextHistory, Recorded, Held, Holds;
  }

  /** The clock on which a reset completes. */
  lemma ResetStarts(p: Params, r: Regs, h: History, i: Input)
    requires p.Valid() && r.Sized(p) && r.Reset() && !Configures(i) && r.config.holdoff < p.holdoffLimit - 1
    ensures Invariant(p, Next(p, r, i), NextHistory(r, h, i), r.config.holdoff)
  {
    StoreStep(p, r, h, i);
  }

  // ---- Runs ------------------------------------------------------------------------------------

  datatype Scope = Scope(regs: Regs, history: History)

  function Run(p: Params, s: Scope, inputs: seq<Input>): (t: Scope)
    requires p.Valid() && s.regs.Sized(p)
    ensures t.regs.Sized(p)
  {
    if |inputs| == 0 then s
    else
      var t, i := Run(p, s, inputs[..|inputs| - 1]), inputs[|inputs| - 1];
      Scope(Next(p, t.regs, i), NextHistory(t.regs, t.history, i))
  }

  /** The control register is left alone. */
  predicate Undisturbed(inputs: seq<Input>) {
    forall k :: 0 <= k < |inputs| ==> !Configures(inputs[k])
  }

  /** In reset, with any holdoff that the counter can pass, all but the greatest. */
  predicate FromReset(p: Params, s: Scope) {
    p.Valid() && s.regs.Sized(p) && s.regs.Reset() && s.regs.config.holdoff < p.holdoffLimit - 1
  }

  lemma {:induction false} RunInvariant(p: Params, s: Scope, inputs: seq<Input>)
    requires FromReset(p, s) && |inputs| > 0 && Undisturbed(inputs)
    ensures var t := Run(p, s, inputs); Invariant(p, t.regs, t.history, s.regs.config.holdoff)
  {
    hide Next, NextHistory, Invariant;
    var before, i := inputs[..|inputs| - 1], inputs[|inputs| - 1];
    var t := Run(p, s, before);
    if |before| == 0 {
      ResetStarts(p, t.regs, t.history, i);
    } else {
      RunInvariant(p, s, before);
      InvariantStep(p, t.regs, t.history, i, s.regs.config.holdoff);
    }
  }

  // ---- The trigger ------------------------------------------------------------------------------

  /** The samples that have come since the clock of the reset. */
  function Samples(inputs: seq<Input>): nat {
    if |inputs| <= 1 then 0
    else Samples(inputs[..|inputs| - 1]) + (if inputs[|inputs| - 1].ce then 1 else 0)
  }

  /** Clock `k` of a run brings a sample with a trigger the control register lets through, and
      enough samples have come before it to fill memory. */
  predicate Fires(p: Params, c: Config, inputs: seq<Input>, k: nat) {
    && 0 < k < |inputs| && inputs[k].ce && (c.manual || (inputs[k].trigger && !c.disable))
    && Samples(inputs[..k]) >= p.depth
  }

  predicate FirstFires(p: Params, c: Config, inputs: seq<Input>, k: nat) {
    Fires(p, c, inputs, k) && forall j: nat :: j < k ==> !Fires(p, c, inputs, j)
  }

  /** The scope has triggered exactly if some clock has fired, and the sample it counts from is the
      one the first such clock brought. */
  ghost predicate TriggeredRight(p: Params, c: Config, inputs: seq<Input>, t: Scope)
  {
    if t.regs.stop.triggered then
      exists k: nat :: FirstFires(p, c, inputs, k) && t.history.trigger == Samples(inputs[..k])
    else forall k: nat :: !Fires(p, c, inputs, k)
  }

  predicate SameSwitches(c: Config, d: Config) {
    c.manual == d.manual && c.disable == d.disable
  }

  lemma TriggerMoves(p: Params, r: Regs, h: History, i: Input, holdoff: nat)
    requires Invariant(p, r, h, holdoff) && !Configures(i)
    ensures var r', h' := Next(p, r, i), NextHistory(r, h, i);
      && SameSwitches(r'.config, r.config)
      && |h'.samples| == |h.samples| + (if i.ce then 1 else 0)
      && r'.stop.triggered ==
           (r.stop.triggered
            || (i.ce && |h.samples| >= p.depth && (r.config.manual || (i.trigger && !r.config.disable))))
      && (r'.stop.triggered ==> h'.trigger == if r.stop.triggered then h.trigger else |h.samples|)
  {
    hide NextStore, NextRead;
  }

  lemma TriggerStarts(p: Params, r: Regs, h: History, i: Input)
    requires p.Valid() && r.Sized(p) && r.Reset() && !Configures(i)
    ensures var r', h' := Next(p, r, i), NextHistory(r, h, i);
      SameSwitches(r'.config, r.config) && h'.samples == [] && !r'.stop.triggered
  {
    hide NextStore, NextRead;
  }

  lemma FiresBefore(p: Params, c: Config, inputs: seq<Input>, k: nat)
    requires k + 1 < |inputs|
    ensures Fires(p, c, inputs, k) == Fires(p, c, inputs[..|inputs| - 1], k)
    ensures inputs[..|inputs| - 1][..k] == inputs[..k]
  {
    assert inputs[..|inputs| - 1][..k] == inputs[..k];
  }

  lemma RightBefore(p: Params, c: Config, inputs: seq<Input>, t: Scope, u: Scope)
    requires |inputs| > 1 && TriggeredRight(p, c, inputs[..|inputs| - 1], t)
    requires u.regs.stop.triggered == (t.regs.stop.triggered || Fires(p, c, inputs, |inputs| - 1))
    requires u.regs.stop.triggered ==>
      u.history.trigger == if t.regs.stop.triggered then t.history.trigger else Samples(inputs[..|inputs| - 1])
    ensures TriggeredRight(p, c, inputs, u)
  {
    hide Samples;
    var before := inputs[..|inputs| - 1];
    forall k: nat | k < |before|
      ensures Fires(p, c, inputs, k) == Fires(p, c, before, k) && inputs[..k] == before[..k]
    {
      FiresBefore(p, c, inputs, k);
    }
    if t.regs.stop.triggered {
      var k: nat :| FirstFires(p, c, before, k) && t.history.trigger == Samples(before[..k]);
      assert FirstFires(p, c, inputs, k);
    } else if Fires(p, c, inputs, |before|) {
      assert FirstFires(p, c, inputs, |before|);
    }
  }

  /** In every run the scope triggers on i_trigger, or at once if told to, exactly as soon as a
      sample comes with it after as many as fill memory. */
  lemma {:induction false} TriggersExactly(p: Params, s: Scope, inputs: seq<Input>)
    requires FromReset(p, s) && |inputs| > 0 && Undisturbed(inputs)
    ensures var t := Run(p, s, inputs);
      && TriggeredRight(p, s.regs.config, inputs, t) && SameSwitches(t.regs.config, s.regs.config)
      && |t.history.samples| == Samples(inputs)
  {
    hide Next, NextHistory, Invariant, TriggeredRight;
    var before, i := inputs[..|inputs| - 1], inputs[|inputs| - 1];
    var t := Run(p, s, before);
    if |before| == 0 {
      TriggerStarts(p, t.regs, t.history, i);
      NoneYet(p, s.regs.config, inputs, Run(p, s, inputs));
    } else {
      TriggersExactly(p, s, before);
      RunInvariant(p, s, before);
      TriggerMoves(p, t.regs, t.history, i, s.regs.config.holdoff);
      RightBefore(p, s.regs.config, inputs, t, Run(p, s, inputs));
    }
  }

  lemma NoneYet(p: Params, c: Config, inputs: seq<Input>, t: Scope)
    requires |inputs| == 1 && !t.regs.stop.triggered
    ensures TriggeredRight(p, c, inputs, t)
  {
  }

  // ---- The stopping clock ---------------------------------------------------------------------

  /** The counter passes the holdoff exactly if a sample comes on the clock that stops the scope. */
  lemma StopCounts(p: Params, r: Regs, h: History, holdoff: nat, i: Input)
    requires Invariant(p, r, h, holdoff) && !Configures(i)
    requires !r.stop.stopped && Next(p, r, i).stop.stopped
    ensures Next(p, r, i).stop.counter == holdoff + 1 <==> i.ce
    ensures Next(p, r, i).stop.counter == holdoff <==> !i.ce
  {
    hide NextRead, NextStore, Recorded, Holds;
  }

  /** A scope that has triggered stops before more samples come than the holdoff counts, and one. */
  lemma StopsBy(p: Params, r: Regs, h: History, holdoff: nat)
    requires Invariant(p, r, h, holdoff) && r.stop.triggered && |h.samples| > h.trigger + holdoff + 1
    ensures r.stop.stopped
  {
    hide Holds;
  }

  /** With any holdoff the register can hold, the scope stays stopped unless the counter wraps as
      it stops: with the greatest holdoff, a sample on that clock starts the count again. */
  lemma StaysStoppedIff(p: Params, r: Regs, i: Input, j: Input)
    requires p.Valid() && r.Sized(p) && !r.Reset() && r.config.holdoff < p.holdoffLimit
    requires r.stop.triggered && !r.stop.stopped && r.stop.counter == r.config.holdoff
    requires !Configures(i) && !Configures(j)
    ensures var t := Next(p, r, i); var u := Next(p, t, j);
      && t.stop.stopped && (u.stop.stopped <==> !i.ce || r.config.holdoff < p.holdoffLimit - 1)
      && (!u.stop.stopped ==> u.stop.triggered && u.stop.counter == 0)
  {
    hide NextStore, NextRead;
  }

  /** Stopped is for good: counter, memory and trigger stay. */
  lemma StaysStopped(p: Params, r: Regs, h: History, holdoff: nat, i: Input)
    requires Invariant(p, r, h, holdoff) && !Configures(i) && r.stop.stopped
    ensures var t, h' := Next(p, r, i), NextHistory(r, h, i);
      && t.stop == r.stop && t.store.mem == r.store.mem && t.store.waddr == r.store.waddr
      && h'.log == h.log && h'.trigger == h.trigger && h.samples <= h'.samples
  {
    hide NextRead, Recorded, Holds;
  }

  /** The input on which a stopped scope stopped. */
  function StopClock(p: Params, s: Scope, inputs: seq<Input>): (k: nat)
    requires p.Valid() && s.regs.Sized(p) && |inputs| > 0
    ensures k < |inputs|
  {
    var before := inputs[..|inputs| - 1];
    if |before| > 0 && Run(p, s, before).regs.stop.stopped then StopClock(p, s, before) else |before|
  }

  lemma NotAtOnce(p: Params, s: Scope, i: Input)
    requires p.Valid() && s.regs.Sized(p) && s.regs.Reset()
    ensures !Run(p, s, [i]).regs.stop.stopped
  {
    assert [i][..0] == [];
    hide NextStore, NextRead;
  }

  /** It stops once, on that input, and the counter tells whether a sample came on it. */
  lemma {:induction false} StopsOnce(p: Params, s: Scope, inputs: seq<Input>)
    requires FromReset(p, s) && |inputs| > 0 && Undisturbed(inputs) && Run(p, s, inputs).regs.stop.stopped
    ensures var k, t := StopClock(p, s, inputs), Run(p, s, inputs);
      && 0 < k && !Run(p, s, inputs[..k]).regs.stop.stopped && Run(p, s, inputs[..k + 1]).regs.stop.stopped
      && t.history.log == Run(p, s, inputs[..k + 1]).history.log
      && t.regs.stop.counter == (if inputs[k].ce then s.regs.config.holdoff + 1 else s.regs.config.holdoff)
  {
    hide Next, NextHistory, Invariant;
    var before, i := inputs[..|inputs| - 1], inputs[|inputs| - 1];
    if |before| == 0 {
      assert inputs == [i];
      NotAtOnce(p, s, i);
    } else {
      var t, k := Run(p, s, before), StopClock(p, s, inputs);
      RunInvariant(p, s, before);
      if t.regs.stop.stopped {
        StopsOnce(p, s, before);
        StaysStopped(p, t.regs, t.history, s.regs.config.holdoff, i);
        assert before[..k] == inputs[..k] && before[..k + 1] == inputs[..k + 1];
      } else {
        assert inputs[..k + 1] == inputs;
        StopCounts(p, t.regs, t.history, s.regs.config.holdoff, i);
        RunInvariant(p, s, inputs);
        CounterIs(p, Run(p, s, inputs).regs, Run(p, s, inputs).history, s.regs.config.holdoff);
      }
    }
  }

  lemma CounterIs(p: Params, r: Regs, h: History, holdoff: nat)
    requires Invariant(p, r, h, holdoff) && r.stop.stopped
    ensures r.stop.counter == holdoff || r.stop.counter == holdoff + 1
    ensures |h.samples| >= |h.log| == h.trigger + 1 + r.stop.counter
  {
    hide Holds;
  }

  /** Consecutive samples up to the one numbered `last`. */
  predicate EndsAt(words: seq<nat>, samples: seq<nat>, last: int) {
    |words| - 1 <= last < |samples| && words == samples[last + 1 - |words|..last + 1]
  }

  /** The number of the newest sample in memory: one behind the words written, the first of
      which came before the reset. */
  function Newest(h: History): int {
    |h.log| - 2
  }

  /** Once stopped, memory holds consecutive samples up to the newest. */
  lemma StoppedHolds(p: Params, r: Regs, h: History, holdoff: nat)
    requires Invariant(p, r, h, holdoff) && r.stop.stopped
    ensures Newest(h) == h.trigger + r.stop.counter - 1
    ensures EndsAt(Oldest(r.store.mem, r.store.waddr), h.samples, Newest(h))
  {
    hide Holds;
    RecordedWindow(r, h, p.depth);
    FullWhenTriggered(p, r, h, holdoff);
  }

  /** In every run, the newest sample kept is the one `holdoff` after the trigger exactly if a
      sample came on the clock that stopped the scope; otherwise it is the one before. */
  lemma StopsExactly(p: Params, s: Scope, inputs: seq<Input>)
    requires FromReset(p, s) && |inputs| > 0 && Undisturbed(inputs) && Run(p, s, inputs).regs.stop.stopped
    ensures var t, k, holdoff := Run(p, s, inputs), StopClock(p, s, inputs), s.regs.config.holdoff;
      && EndsAt(Oldest(t.regs.store.mem, t.regs.store.waddr), t.history.samples, Newest(t.history))
      && (Newest(t.history) == t.history.trigger + holdoff <==> inputs[k].ce)
      && (Newest(t.history) == t.history.trigger + holdoff - 1 <==> !inputs[k].ce)
  {
    hide Run, StopClock, Oldest, Recorded, Held, Holds;
    RunInvariant(p, s, inputs);
    StopsOnce(p, s, inputs);
    StoppedHolds(p, Run(p, s, inputs).regs, Run(p, s, inputs).history, s.regs.config.holdoff);
  }

  lemma RecordedWindow(r: Regs, h: History, depth: nat)
    requires Recorded(r, h) && depth < |h.log|
    ensures EndsAt(h.log[|h.log| - depth..], h.samples, |h.log| - 2)
  {
    var words, from := h.log[|h.log| - depth..], |h.log| - 1 - depth;
    forall k | 0 <= k < depth
      ensures words[k] == h.samples[from + k]
    {
      assert words[k] == h.log[from + 1 + k];
    }
    assert words == h.samples[from..from + depth];
  }

  lemma FullWhenTriggered(p: Params, r: Regs, h: History, holdoff: nat)
    requires Invariant(p, r, h, holdoff) && r.stop.triggered
    ensures p.depth < |h.log| && Oldest(r.store.mem, r.store.waddr) == h.log[|h.log| - p.depth..]
  {
    hide Recorded, Oldest;
    assert r.store.primed;
    FullMemory(p.depth, r.store.mem, r.store.waddr, h.log);
  }

  /** In particular, the trigger's own sample is then in memory, `holdoff` before the newest or
      one fewer, whenever that is less than the depth. */
  lemma TriggerIsKept(p: Params, s: Scope, inputs: seq<Input>)
    requires FromReset(p, s) && |inputs| > 0 && Undisturbed(inputs) && Run(p, s, inputs).regs.stop.stopped
    ensures var t, k, holdoff := Run(p, s, inputs), StopClock(p, s, inputs), s.regs.config.holdoff;
      var words, back := Oldest(t.regs.store.mem, t.regs.store.waddr), if inputs[k].ce then holdoff else holdoff - 1;
      && t.history.trigger < |t.history.samples|
      && (0 <= back < p.depth ==> words[p.depth - 1 - back] == t.history.samples[t.history.trigger])
  {
    hide Run, StopClock, Oldest, Invariant;
    RunInvariant(p, s, inputs);
    StopsExactly(p, s, inputs);
    CounterIs(p, Run(p, s, inputs).regs, Run(p, s, inputs).history, s.regs.config.holdoff);
  }

  predicate AlwaysEnabled(inputs: seq<Input>) {
    forall k :: 0 <= k < |inputs| ==> inputs[k].ce
  }

  /** So with i_ce held high it is exactly `holdoff` before the newest. */
  lemma EnabledKeepsTrigger(p: Params, s: Scope, inputs: seq<Input>)
    requires FromReset(p, s) && |inputs| > 0 && Undisturbed(inputs) && Run(p, s, inputs).regs.stop.stopped
    requires AlwaysEnabled(inputs) && s.regs.config.holdoff < p.depth
    ensures var t, holdoff := Run(p, s, inputs), s.regs.config.holdoff;
      && Newest(t.history) == t.history.trigger + holdoff < |t.history.samples|
      && Oldest(t.regs.store.mem, t.regs.store.waddr)[p.depth - 1 - holdoff] == t.history.samples[t.history.trigger]
  {
    hide Run, StopClock, Oldest;
    StopsExactly(p, s, inputs);
    TriggerIsKept(p, s, inputs);
  }

  // ---- Readout ---------------------------------------------------------------------------------

  /** Stopped, with at least one clock for the read address to follow the write address. */
  ghost predicate Reading(p: Params, r: Regs, h: History, holdoff: nat, seen: Reads<nat>)
  {
    && Invariant(p, r, h, holdoff) && r.stop.stopped && (seen.one ==> r.readAddress)
    && Walking(p.depth, r.reader, r.store.mem, r.store.waddr, seen)
  }

  lemma ReadingStep(p: Params, r: Regs, h: History, holdoff: nat, i: Input, seen: Reads<nat>)
    requires Reading(p, r, h, holdoff, seen) && !Configures(i) && (ReadStrobe(i) ==> seen.Count() < p.depth)
    ensures var r', h' := Next(p, r, i), NextHistory(r, h, i);
      && Reading(p, r', h', holdoff, NextReads(r.reader, seen, ReadStrobe(i)))
      && r'.store.mem == r.store.mem && r'.store.waddr == r.store.waddr
  {
    InvariantStep(p, r, h, i, holdoff);
    hide Walking, NextReader, NextReads, Recorded, Holds;
    WalkingStep(p.depth, r.reader, r.store.mem, r.store.waddr, i.data, ReadStrobe(i),
                if !r.readAddress then SelectControl else SelectMemory, seen);
  }

  /** The scope as it stops, one quiet clock later. */
  lemma ReadingStarts(p: Params, r: Regs, h: History, holdoff: nat, i: Input)
    requires Invariant(p, r, h, holdoff) && r.stop.stopped && r.reader.raddr == 0
    requires !Configures(i) && !ReadStrobe(i)
    ensures var r' := Next(p, r, i); r'.reader.raddr == 0 && Reading(p, r', NextHistory(r, h, i), holdoff, Reads([], false, false))
  {
    InvariantStep(p, r, h, i, holdoff);
    hide Recorded, Holds;
    WalkingStarts(p.depth, Next(p, r, i).reader, Next(p, r, i).store.mem, Next(p, r, i).store.waddr);
  }

  datatype Readout = Readout(scope: Scope, seen: Reads<nat>)

  function RunReads(p: Params, s: Readout, inputs: seq<Input>): (t: Readout)
    requires p.Valid() && s.scope.regs.Sized(p)
    ensures t.scope.regs.Sized(p)
  {
    if |inputs| == 0 then s
    else
      var t, i := RunReads(p, s, inputs[..|inputs| - 1]), inputs[|inputs| - 1];
      Readout(Scope(Next(p, t.scope.regs, i), NextHistory(t.scope.regs, t.scope.history, i)),
              NextReads(t.scope.regs.reader, t.seen, ReadStrobe(i)))
  }

  function Strobes(inputs: seq<Input>): nat {
    if |inputs| == 0 then 0
    else Strobes(inputs[..|inputs| - 1]) + (if ReadStrobe(inputs[|inputs| - 1]) then 1 else 0)
  }

  lemma {:induction false} RunReading(p: Params, s: Readout, holdoff: nat, inputs: seq<Input>)
    requires Reading(p, s.scope.regs, s.scope.history, holdoff, s.seen) && s.seen == Reads([], false, false)
    requires Undisturbed(inputs) && Strobes(inputs) <= p.depth
    ensures var t := RunReads(p, s, inputs);
      && Reading(p, t.scope.regs, t.scope.history, holdoff, t.seen) && t.seen.Count() == Strobes(inputs)
      && t.scope.regs.store.mem == s.scope.regs.store.mem && t.scope.regs.store.waddr == s.scope.regs.store.waddr
  {
    hide Next, NextHistory;
    if |inputs| == 0 {
    } else {
      var before, i := inputs[..|inputs| - 1], inputs[|inputs| - 1];
      RunReading(p, s, holdoff, before);
      var t := RunReads(p, s, before);
      ReadingStep(p, t.scope.regs, t.scope.history, holdoff, i, t.seen);
    }
  }

  /** With any spacing of reads, and whatever the input does meanwhile, the n-th read of the data
      register returns the n-th oldest word. */
  lemma ReadsOldestFirst(p: Params, s: Readout, holdoff: nat, inputs: seq<Input>)
    requires Reading(p, s.scope.regs, s.scope.history, holdoff, s.seen) && s.seen == Reads([], false, false)
    requires Undisturbed(inputs) && Strobes(inputs) <= p.depth
    ensures var got := RunReads(p, s, inputs).seen.got;
      && Strobes(inputs) - 2 <= |got| <= p.depth
      && forall n :: 0 <= n < |got| ==>
           got[n] == Memory(Oldest(s.scope.regs.store.mem, s.scope.regs.store.waddr)[n])
  {
    hide RunReads, Oldest, Recorded, Held, Holds;
    RunReading(p, s, holdoff, inputs);
  }

  // ---- The clock on which the scope stops --------------------------------------------------------

  /** The reader is ready at once exactly if that clock brought both a sample and a read, or
      neither: the read address then stands at the oldest word. */
  lemma ReadyAtOnceIff(p: Params, r: Regs, h: History, holdoff: nat, last: Input)
    requires Invariant(p, r, h, holdoff) && !Configures(last) && p.depth >= 2
    requires !r.stop.stopped && Next(p, r, last).stop.stopped
    ensures var t := Next(p, r, last);
      t.reader.raddr == 0 && (t.reader.thisAddr == t.store.waddr <==> last.ce == ReadStrobe(last))
  {
    hide Recorded, Holds, Held;
  }

  /** The word a read on the first stopped clock gets. */
  function FirstIndex(p: Params, last: Input): nat
    requires p.depth >= 2
  {
    if last.ce == ReadStrobe(last) then 0 else if last.ce then p.depth - 1 else 1
  }

  lemma FirstAddress(p: Params, r: Regs, h: History, holdoff: nat, last: Input)
    requires Invariant(p, r, h, holdoff) && !Configures(last) && p.depth >= 2
    requires !r.stop.stopped && Next(p, r, last).stop.stopped
    ensures var t := Next(p, r, last);
      t.store.mem[t.reader.thisAddr] == Oldest(t.store.mem, t.store.waddr)[FirstIndex(p, last)]
  {
    hide Recorded, Holds, Held, NextStop, NextConfig;
  }

  /** It gets the oldest word exactly in those two cases.  After a sample and no read it gets the
      newest, after a read and no sample the second oldest. */
  lemma FirstRead(p: Params, r: Regs, h: History, holdoff: nat, last: Input, i: Input, j: Input)
    requires Invariant(p, r, h, holdoff) && !Configures(last) && p.depth >= 2
    requires !r.stop.stopped && Next(p, r, last).stop.stopped && ReadStrobe(i)
    ensures var t := Next(p, r, last);
      Next(p, Next(p, t, i), j).reader.out == Memory(Oldest(t.store.mem, t.store.waddr)[FirstIndex(p, last)])
    ensures FirstIndex(p, last) == 0 <==> last.ce == ReadStrobe(last)
  {
    var t := Next(p, r, last);
    FirstAddress(p, r, h, holdoff, last);
    InvariantStep(p, r, h, last, holdoff);
    StaysStopped(p, t, NextHistory(r, h, last), holdoff, i);
    hide Invariant, NextConfig, NextStore, NextStop, Oldest;
  }

  // ---- From the reset to the host ----------------------------------------------------------------

  lemma {:induction false} ReadsPeel(p: Params, s: Readout, i: Input, rest: seq<Input>)
    requires p.Valid() && s.scope.regs.Sized(p)
    ensures RunReads(p, s, [i] + rest) == RunReads(p, RunReads(p, s, [i]), rest)
    ensures Strobes([i] + rest) == Strobes([i]) + Strobes(rest)
  {
    hide Next, NextHistory;
    if |rest| == 0 {
      assert [i] + rest == [i];
    } else {
      var front, last := rest[..|rest| - 1], rest[|rest| - 1];
      ReadsPeel(p, s, i, front);
      assert ([i] + rest)[..|rest|] == [i] + front;
    }
  }

  lemma ReadsOne(p: Params, s: Readout, i: Input)
    requires p.Valid() && s.scope.regs.Sized(p)
    ensures RunReads(p, s, [i]) ==
      Readout(Scope(Next(p, s.scope.regs, i), NextHistory(s.scope.regs, s.scope.history, i)),
              NextReads(s.scope.regs.reader, s.seen, ReadStrobe(i)))
    ensures Strobes([i]) == if ReadStrobe(i) then 1 else 0
  {
    assert [i][..0] == [];
  }

  lemma ReadsInPlace(words: seq<nat>, samples: seq<nat>, last: int, n: nat)
    requires EndsAt(words, samples, last) && n < |words|
    ensures words[n] == samples[last + 1 - |words| + n]
  {
  }

  lemma WordsWithin(words: seq<nat>, samples: seq<nat>, last: int)
    requires EndsAt(words, samples, last)
    ensures |words| - 1 <= last < |samples|
  {
  }

  /** `got` is so far what the port returns of the samples up to `last`. */
  ghost predicate Returned(got: seq<Out<nat>>, samples: seq<nat>, depth: nat, last: int, strobes: nat)
  {
    && strobes - 2 <= |got| <= depth && depth - 1 <= last < |samples|
    && forall n :: 0 <= n < |got| ==> got[n] == Memory(samples[last + 1 - depth + n])
  }

  lemma ReadsFrom(p: Params, s: Readout, holdoff: nat, inputs: seq<Input>, samples: seq<nat>, last: int)
    requires Reading(p, s.scope.regs, s.scope.history, holdoff, s.seen) && s.seen == Reads([], false, false)
    requires Undisturbed(inputs) && Strobes(inputs) <= p.depth
    requires EndsAt(Oldest(s.scope.regs.store.mem, s.scope.regs.store.waddr), samples, last)
    ensures Returned(RunReads(p, s, inputs).seen.got, samples, p.depth, last, Strobes(inputs))
  {
    hide RunReads, Oldest, Held, Holds, Recorded, Walking, EndsAt, Strobes, Undisturbed;
    ReadsOldestFirst(p, s, holdoff, inputs);
    var words, got := Oldest(s.scope.regs.store.mem, s.scope.regs.store.waddr), RunReads(p, s, inputs).seen.got;
    hide Reading;
    WordsWithin(words, samples, last);
    forall n | 0 <= n < |got|
      ensures got[n] == Memory(samples[last + 1 - p.depth + n])
    {
      ReadsInPlace(words, samples, last, n);
    }
  }

  /** From a reset, through the stop, to the bus: the n-th word the port returns is sample number
      n of the last ones taken, counted from the trigger.  The reads may be spaced in any way and
      begin at once if the reader is ready, else one clock later. */
  lemma ReadsBack(p: Params, s: Scope, inputs: seq<Input>, later: seq<Input>)
    requires FromReset(p, s) && p.depth >= 2 && |inputs| > 0 && Undisturbed(inputs)
    requires Run(p, s, inputs).regs.stop.stopped && StopClock(p, s, inputs) == |inputs| - 1
    requires Undisturbed(later) && Strobes(later) <= p.depth
    requires var last := inputs[|inputs| - 1];
      |later| > 0 && ReadStrobe(later[0]) ==> last.ce == ReadStrobe(last)
    ensures var t := Run(p, s, inputs);
      var newest := t.history.trigger + s.regs.config.holdoff - (if inputs[|inputs| - 1].ce then 0 else 1);
      Returned(RunReads(p, Readout(t, Reads([], false, false)), later).seen.got, t.history.samples, p.depth, newest,
               Strobes(later))
  {
    hide Run, StopClock, Next, NextHistory, Invariant, Returned, Oldest, EndsAt;
    ReadyAfterRun(p, s, inputs);
    StopsExactly(p, s, inputs);
    var t := Run(p, s, inputs);
    ReadsAfterStop(p, t, s.regs.config.holdoff, later, Newest(t.history));
  }

  lemma ReadyAfterRun(p: Params, s: Scope, inputs: seq<Input>)
    requires FromReset(p, s) && p.depth >= 2 && |inputs| > 0 && Undisturbed(inputs)
    requires Run(p, s, inputs).regs.stop.stopped && StopClock(p, s, inputs) == |inputs| - 1
    ensures var t, last := Run(p, s, inputs), inputs[|inputs| - 1];
      && Invariant(p, t.regs, t.history, s.regs.config.holdoff) && t.regs.reader.raddr == 0
      && (t.regs.reader.thisAddr == t.regs.store.waddr <==> last.ce == ReadStrobe(last))
  {
    hide StopClock, Next, NextHistory, Invariant;
    var before, last := inputs[..|inputs| - 1], inputs[|inputs| - 1];
    StopsOnce(p, s, inputs);
    RunInvariant(p, s, before);
    RunInvariant(p, s, inputs);
    ReadyAtOnceIff(p, Run(p, s, before).regs, Run(p, s, before).history, s.regs.config.holdoff, last);
  }

  lemma ReadsAfterStop(p: Params, t: Scope, holdoff: nat, later: seq<Input>, last: int)
    requires Invariant(p, t.regs, t.history, holdoff) && t.regs.stop.stopped && t.regs.reader.raddr == 0
    requires Undisturbed(later) && Strobes(later) <= p.depth
    requires |later| > 0 && ReadStrobe(later[0]) ==> t.regs.reader.thisAddr == t.regs.store.waddr
    requires EndsAt(Oldest(t.regs.store.mem, t.regs.store.waddr), t.history.samples, last)
    ensures Returned(RunReads(p, Readout(t, Reads([], false, false)), later).seen.got, t.history.samples, p.depth, last,
                     Strobes(later))
  {
    hide RunReads, Next, NextHistory, Oldest, Recorded, Held, Holds, Walking;
    var ro := Readout(t, Reads([], false, false));
    if |later| == 0 || ReadStrobe(later[0]) {
      NoReads(p, ro);
      if |later| > 0 {
        WalkingStarts(p.depth, t.regs.reader, t.regs.store.mem, t.regs.store.waddr);
        ReadsFrom(p, ro, holdoff, later, t.history.samples, last);
      }
    } else {
      var i, rest := later[0], later[1..];
      assert later == [i] + rest;
      ReadsPeel(p, ro, i, rest);
      ReadsOne(p, ro, i);
      ReadingStarts(p, t.regs, t.history, holdoff, i);
      StaysStopped(p, t.regs, t.history, holdoff, i);
      ReadsFrom(p, RunReads(p, ro, [i]), holdoff, rest, t.history.samples, last);
    }
  }

  lemma NoReads(p: Params, s: Readout)
    requires p.Valid() && s.scope.regs.Sized(p)
    ensures RunReads(p, s, []) == s && Strobes([]) == 0
  {
  }

  // ---- The registers -----------------------------------------------------------------------------

  class Core {
    const p: Params
    var config: Config
    var stop: Stop
    const mem: array<nat>
    var waddr: nat
    var primed: bool
    var pipe: nat
    var reader: Reader<nat>
    var readAddress: bool

    function Registers(): Regs
      reads this, mem
    {
      Regs(config, stop, Store(mem[..], waddr, primed, pipe), reader, readAddress)
    }

    ghost predicate Valid()
      reads this, mem
    {
      p.Valid() && Registers().Sized(p)
    }

    /** Power-on: in reset. */
    constructor (p: Params, holdoff: nat)
      requires p.Valid()
      ensures this.p == p && fresh(mem) && Valid() && Registers().Reset() && config.holdoff == holdoff
    {
      this.p := p;
      config, stop := Config(false, false, false, holdoff), Stop(false, 0, false);
      mem := new nat[p.depth](_ => 0);
      waddr, primed, pipe, reader, readAddress := 0, false, 0, Reader(0, 0, 0, Control), false;
    }

    method ConfigBlock(i: Input) returns (c: Config)
      requires Valid()
      ensures c == NextConfig(p, config, i)
    {
      c := config;
      if i.stb && i.we && !i.addr {
        c := c.(manual := i.bus / 0x800_0000 % 2 == 1, disable := i.bus / 0x400_0000 % 2 == 1);
        if i.bus / 0x8000_0000 % 2 != 1 {
          c := c.(holdoff := i.bus % p.holdoffLimit);
        }
        if !config.running {
          c := c.(running := true);
        } else {
          c := c.(running := i.bus / 0x8000_0000 % 2 == 1);
        }
      } else if !config.running {
        c := c.(running := true);
      }
    }

    method StopBlock(i: Input) returns (s: Stop)
      requires Valid()
      ensures s == NextStop(p, Registers(), i)
    {
      s := stop;
      if !config.running {
        s := s.(triggered := false, counter := 0);
      } else if i.ce {
        if primed && ((i.trigger && !config.disable) || config.manual) {
          s := s.(triggered := true);
        }
        if stop.triggered && !stop.stopped {
          s := s.(counter := if stop.counter + 1 == p.holdoffLimit then 0 else stop.counter + 1);
        }
      }
      if !stop.triggered || !config.running {
        s := s.(stopped := false);
      } else {
        s := s.(stopped := stop.counter >= config.holdoff);
      }
    }

    method StoreBlock(i: Input) returns (waddr': nat, primed': bool, pipe': nat)
      requires Valid()
      modifies mem
      ensures Store(mem[..], waddr', primed', pipe') == NextStore(p, old(Registers()), i)
    {
      waddr', primed', pipe' := waddr, primed, pipe;
      if !config.running {
        waddr', primed' := 0, false;
      } else if i.ce && !stop.stopped {
        waddr' := if waddr + 1 == p.depth then 0 else waddr + 1;
        if !primed {
          primed' := waddr + 1 == p.depth;
        }
      }
      if i.ce {
        pipe' := i.data;
      }
      if i.ce && !stop.stopped {
        mem[waddr] := pipe;
      }
    }

    method ReadBlock(i: Input) returns (rd: Reader<nat>)
      requires Valid()
      ensures rd == NextRead(p, Registers(), i)
    {
      var read := i.stb && i.addr && !i.we;
      rd := reader.(nxt := mem[reader.thisAddr], thisAddr := Wrap(p.depth, reader.raddr + waddr));
      if !config.running || (i.stb && i.we && !i.addr) {
        rd := rd.(raddr := 0);
      } else if read && stop.stopped {
        rd := rd.(raddr := Wrap(p.depth, reader.raddr + 1));
      }
      if read {
        rd := rd.(thisAddr := Wrap(p.depth, Wrap(p.depth, reader.raddr + waddr) + 1));
      }
      if !readAddress {
        rd := rd.(out := Control);
      } else if !stop.stopped {
        rd := rd.(out := Live(i.data));
      } else {
        rd := rd.(out := Memory(reader.nxt));
      }
    }

    method Clock(i: Input)
      requires Valid()
      modifies this, mem
      ensures Valid() && Registers() == Next(p, old(Registers()), i)
    {
      hide NextConfig, NextStop, NextStore, NextRead;
      ghost var r := Registers();
      var c := ConfigBlock(i);
      var s := StopBlock(i);
      var rd := ReadBlock(i);
      var waddr', primed', pipe' := StoreBlock(i);
      config, stop, reader, readAddress := c, s, rd, i.addr;
      waddr, primed, pipe := waddr', primed', pipe';
      assert Registers() == Next(p, r, i);
    }
  }
}
