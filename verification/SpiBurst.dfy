/** A master that reads the flash in bursts: one request, and the next held ready while the word
    before it comes in. */
module SpiBurst {
  import opened Bits
  import opened FlashDevice
  import opened FlashRead
  import opened SpiXpress
  import opened SpiSystem
  import opened SpiRuns

  function Request(addr: nat): Input {
    Input(false, true, true, false, false, addr, 0)
  }

  /** Nothing asked for, with or without the cycle held. */
  function Pause(cyc: bool): Input {
    Input(false, cyc, false, false, false, 0, 0)
  }

  function Idles(n: nat): (inputs: seq<Input>)
    ensures |inputs| == n && Kept(inputs)
  {
    seq(n, _ => Pause(true))
  }

  lemma {:induction false} RunAppend(aw: nat, s: System, x: seq<Input>, y: seq<Input>)
    requires LegalRun(aw, s, x) && LegalRun(aw, Run(aw, s, x), y)
    ensures LegalRun(aw, s, x + y) && Run(aw, s, x + y) == Run(aw, Run(aw, s, x), y)
  {
    hide Step, Legal;
    if |y| == 0 {
      assert x + y == x;
    } else {
      RunAppend(aw, s, x, y[..|y| - 1]);
      assert (x + y)[..|x + y| - 1] == x + y[..|y| - 1];
    }
  }

  lemma RunOne(aw: nat, s: System, i: Input)
    requires Legal(aw, s, i)
    ensures LegalRun(aw, s, [i]) && Run(aw, s, [i]) == Step(aw, s, i)
  {
    hide Step, Legal;
    assert [i][..0] == [];
  }

  lemma {:induction false} IdlesLegal(aw: nat, s: System, n: nat)
    requires s.ledger.hold.Free?
    ensures LegalRun(aw, s, Idles(n)) && Run(aw, s, Idles(n)).ledger.hold.Free?
  {
    hide Next, NextFlash, NextWire, NextQueue;
    if n == 0 {
    } else {
      IdlesLegal(aw, s, n - 1);
      assert Idles(n)[..n - 1] == Idles(n - 1);
    }
  }

  lemma SelectedBase(aw: nat, s: System, i: Input)
    requires !s.regs.csn
    ensures Step(aw, s, i).wire.base == s.wire.base
  {
    hide Next, NextFlash, NextLedger;
  }

  lemma SelectedWhile(aw: nat, s: System)
    requires SpiRuns.Invariant(aw, s) && s.regs.delay > 0
    ensures !s.regs.csn
  {
  }

  /** While a request is in flight the chip stays selected. */
  lemma {:induction false} IdlesBase(aw: nat, s: System, n: nat)
    requires SpiRuns.Invariant(aw, s) && s.ledger.hold.Free? && n <= s.regs.delay
    ensures Run(aw, s, Idles(n)).wire.base == s.wire.base
  {
    hide SpiRuns.Invariant, Step;
    if n == 0 {
    } else {
      IdlesBase(aw, s, n - 1);
      IdlesLegal(aw, s, n - 1);
      assert Idles(n)[..n - 1] == Idles(n - 1);
      RunInvariant(aw, s, Idles(n - 1));
      if n > 1 {
        AckOnTime(aw, s, Idles(n - 1));
      }
      SelectedWhile(aw, Run(aw, s, Idles(n - 1)));
      SelectedBase(aw, Run(aw, s, Idles(n - 1)), Idles(n)[n - 1]);
    }
  }

  lemma {:induction false} IdlesDelay(aw: nat, s: System, n: nat)
    requires n <= s.regs.delay
    ensures Run(aw, s, Idles(n)).regs.delay == s.regs.delay - n
  {
    hide NextFlash, NextWire, NextLedger, NextPipe, NextData;
    if n == 0 {
    } else {
      IdlesDelay(aw, s, n - 1);
      assert Idles(n)[..n - 1] == Idles(n - 1);
    }
  }

  // ---- A burst ------------------------------------------------------------------------------------

  /** A read in flight: of word `line`, asked for as `addr`, in a burst that began with `base`
      as the flash. */
  ghost predicate Bursting(aw: nat, s: System, base: Flash, addr: nat, line: nat)
  {
    && SpiRuns.Invariant(aw, s) && s.ledger.hold.Free? && !s.regs.user && 2 <= s.regs.delay <= 65
    && Ready(s) && s.wire.base == base
    && |s.ledger.queue| > 0 && s.ledger.queue[|s.ledger.queue| - 1] == Fetch(addr, line)
  }

  /** The first request, to a controller at rest: it is a fresh command. */
  lemma Opens(aw: nat, s: System, addr: nat)
    requires SpiRuns.Invariant(aw, s) && s.ledger.hold.Free? && !s.regs.user && s.regs.delay == 0 && !s.regs.ack
    requires addr < Pow2(aw) && !NextFlash(s).Busy() && !NextFlash(s).state.Lost?
    ensures Legal(aw, s, Request(addr))
    ensures var u := Step(aw, s, Request(addr)); Bursting(aw, u, NextFlash(s), addr, addr) && u.regs.delay == 65
  {
    InvariantStep(aw, s, Request(addr));
    OpensFresh(aw, s, addr);
    hide SpiRuns.Invariant, Next, NextFlash;
  }

  lemma OpensFresh(aw: nat, s: System, addr: nat)
    requires SpiRuns.Invariant(aw, s) && s.ledger.hold.Free? && !s.regs.user && s.regs.delay == 0 && !s.regs.ack
    requires addr < Pow2(aw)
    ensures var u := Step(aw, s, Request(addr));
      && u.regs.delay == 65 && !u.regs.user && u.ledger.hold.Free? && u.ledger.queue == [Fetch(addr, addr)]
      && u.wire.base == NextFlash(s) && s.regs.csn
  {
    hide OnWire, Commanding, Fetching, Fetched, Sending, Replied, NextFlash, NextPipe, NextData;
  }

  /** All but two clocks of it. */
  lemma Nears(aw: nat, s: System, base: Flash, addr: nat, line: nat)
    requires Bursting(aw, s, base, addr, line) && s.regs.delay > 2
    ensures LegalRun(aw, s, Idles(s.regs.delay - 2))
    ensures var u := Run(aw, s, Idles(s.regs.delay - 2));
      Bursting(aw, u, base, addr, line) && u.regs.delay == 2 && u.ledger.queue == [Fetch(addr, line)]
  {
    hide SpiRuns.Invariant, Step, Legal, Run, LegalRun;
    var n := s.regs.delay - 2;
    IdlesLegal(aw, s, n);
    RunInvariant(aw, s, Idles(n));
    AckOnTime(aw, s, Idles(n));
    IdlesBase(aw, s, n);
    StaysMemory(aw, s, Idles(n));
  }

  lemma {:induction false} StaysMemory(aw: nat, s: System, inputs: seq<Input>)
    requires !s.regs.user && forall k :: 0 <= k < |inputs| ==> !inputs[k].cfgStb
    ensures !Run(aw, s, inputs).regs.user
  {
    if |inputs| == 0 {
    } else {
      StaysMemory(aw, s, inputs[..|inputs| - 1]);
      MemoryStays(aw, Run(aw, s, inputs[..|inputs| - 1]), inputs[|inputs| - 1]);
    }
  }

  lemma MemoryStays(aw: nat, s: System, i: Input)
    requires !s.regs.user && !i.cfgStb
    ensures !Step(aw, s, i).regs.user
  {
    hide NextFlash, NextWire, NextLedger, NextPipe, NextData;
  }

  /** Two clocks before a word is complete, the request for the next address, held. */
  lemma Joins(aw: nat, s: System, addr: nat, line: nat)
    requires SpiRuns.Invariant(aw, s) && s.ledger.hold.Free? && s.regs.delay == 2 && !s.regs.user
    requires s.ledger.queue == [Fetch(addr, line)]
    ensures var next := Request(Succ(aw, addr));
      && Legal(aw, s, next)
      && var u := Step(aw, s, next);
      && Legal(aw, u, next) && !s.regs.csn && !u.regs.csn && u.regs.BusRequest(next)
      && NewJob(u, next) == Fetch(Succ(aw, addr), line + 1) && u.regs.delay == 1 && u.ledger.queue == s.ledger.queue
      && !u.regs.ack
  {
    hide OnWire, Commanding, Fetching, Fetched, Sending, Replied, NextFlash, NextPipe, NextData, NextWire;
  }

  /** One clock later it is taken. */
  lemma Taken(aw: nat, s: System, next: Input, q: seq<Job>)
    requires !s.regs.csn && s.regs.BusRequest(next) && !s.regs.ack && s.ledger.queue == q && s.regs.delay == 1
    requires next.cyc && !next.reset && !next.cfgStb
    ensures var u := Step(aw, s, next);
      u.regs.delay == 32 && u.ledger.queue == q + [NewJob(s, next)] && u.ledger.hold.Free? && u.regs.ack && !u.regs.user
  {
    hide NextFlash, NextPipe, NextData, NextWire;
  }

  /** The word comes in as the next one is begun. */
  lemma Continues(aw: nat, s: System, base: Flash, addr: nat, line: nat)
    requires Bursting(aw, s, base, addr, line) && s.regs.delay == 2 && s.ledger.queue == [Fetch(addr, line)]
    ensures var next := Request(Succ(aw, addr)); var u := Step(aw, s, next); var v := Step(aw, u, next);
      && Legal(aw, s, next) && Legal(aw, u, next) && Bursting(aw, v, base, Succ(aw, addr), line + 1)
      && v.regs.delay == 32 && v.regs.ack && v.ledger.queue == [Fetch(addr, line), Fetch(Succ(aw, addr), line + 1)]
  {
    hide SpiRuns.Invariant, Step, Legal;
    var next := Request(Succ(aw, addr));
    var u := Step(aw, s, next);
    Joins(aw, s, addr, line);
    InvariantStep(aw, s, next);
    InvariantStep(aw, u, next);
    SelectedBase(aw, s, next);
    SelectedBase(aw, u, next);
    Taken(aw, u, next, [Fetch(addr, line)]);
  }

  /** The last word. */
  lemma Ends(aw: nat, s: System, base: Flash, addr: nat, line: nat)
    requires Bursting(aw, s, base, addr, line)
    ensures LegalRun(aw, s, Idles(s.regs.delay))
    ensures var t := Run(aw, s, Idles(s.regs.delay));
      && SpiRuns.Invariant(aw, t) && t.ledger.hold.Free? && !t.regs.user && Ready(t) && t.wire.base == base
      && t.regs.ack && |t.ledger.queue| > 0 && t.ledger.queue[0] == Fetch(addr, line) && t.regs.delay == 0
  {
    hide SpiRuns.Invariant, Step, Legal, Run, LegalRun;
    var n := s.regs.delay;
    IdlesDelay(aw, s, n);
    IdlesLegal(aw, s, n);
    RunInvariant(aw, s, Idles(n));
    AckOnTime(aw, s, Idles(n));
    IdlesBase(aw, s, n);
    StaysMemory(aw, s, Idles(n));
  }

  /** Each word that comes in is the one asked for. */
  lemma WordArrives(aw: nat, s: System, base: Flash, addr: nat, line: nat)
    requires SpiRuns.Invariant(aw, s) && Ready(s) && s.wire.base == base && s.regs.ack
    requires |s.ledger.queue| > 0 && s.ledger.queue[0] == Fetch(addr, line) && 4 * line + 3 < |base.mem|
    ensures s.regs.data == WordAt(base.mem, line)
  {
    FetchDelivers(aw, s);
    ShiftsKeep(base, s.wire.sent);
    hide Control, Pending, Owed, Commanding, Fetching, Fetched, Sending, Replied;
  }

  /** What the flash has been through by the end of a burst. */
  lemma BurstWas(aw: nat, s: System, addr: nat, line: nat)
    requires SpiRuns.Invariant(aw, s) && Ready(s) && s.regs.ack && s.regs.delay == 0 && !s.regs.user
    requires |s.ledger.queue| > 0 && s.ledger.queue[0] == Fetch(addr, line)
    ensures s.regs.csn && s.flash == Shifts(s.wire.base, s.wire.sent)
    ensures s.ledger.first <= line && |s.wire.sent| == 32 * (line - s.ledger.first) + 64
    ensures s.wire.sent[..32] == ReadCommand(s.ledger.first)
  {
    hide Pending, Owed, Commanding, Fetching, Sending, Replied;
  }

  /** One word of a burst: all but two clocks of it, then the next request until it is taken. */
  function OneWord(aw: nat, s: System, next: nat): System
    requires s.regs.delay > 2
  {
    Step(aw, Step(aw, Run(aw, s, Idles(s.regs.delay - 2)), Request(next)), Request(next))
  }

  lemma TakesWord(aw: nat, s: System, base: Flash, addr: nat, line: nat)
    requires Bursting(aw, s, base, addr, line) && s.regs.delay > 2 && 4 * line + 3 < |base.mem|
    ensures var v := OneWord(aw, s, Succ(aw, addr));
      Bursting(aw, v, base, Succ(aw, addr), line + 1) && v.regs.delay == 32 && v.regs.data == WordAt(base.mem, line)
  {
    hide SpiRuns.Invariant, Step, Legal, Run, LegalRun, WordAt;
    Nears(aw, s, base, addr, line);
    Continues(aw, Run(aw, s, Idles(s.regs.delay - 2)), base, addr, line);
    WordArrives(aw, OneWord(aw, s, Succ(aw, addr)), base, addr, line);
  }
}
