/** What every run of the controller and the flash together keeps, and what it delivers. */
module SpiRuns {
  import opened Bits
  import opened FlashDevice
  import opened FlashProgram
  import opened FlashRead
  import opened SpiXpress
  import opened SpiSystem

  ghost predicate Init(s: System)
  {
    && PowerOn(s.regs) && !s.lclsck
    && Standby(s.flash) && |s.flash.mem| == SIZE && s.wire == Wire(s.flash, [], [])
    && s.ledger.queue == [] && s.ledger.hold == Free
  }

  ghost predicate Invariant(aw: nat, s: System)
  {
    && aw <= 22
    && |s.wire.base.mem| == |s.flash.mem| == SIZE
    && Control(s.regs, s.lclsck) && Pending(s) && Owed(aw, s)
    && OnWire(s) && Commanding(s) && Fetching(s) && Fetched(s)
    && Sending(s) && Replied(s)
  }

  lemma OperatorSameSize(f: Flash, csn: bool, sck: bool, mosi: bool)
    ensures |Operator(f, csn, sck, mosi).mem| == |f.mem|
  {
    EdgeKeeps(Tick(f), mosi);
  }

  lemma SameSize(f: Flash, csn: bool, lclsck: bool, mosi: bool)
    ensures |SimTick(f, csn, lclsck, mosi).mem| == |f.mem|
  {
    OperatorSameSize(f, csn, !lclsck, mosi);
    OperatorSameSize(Operator(f, csn, !lclsck, mosi), csn, true, mosi);
  }

  lemma InitInvariant(aw: nat, s: System)
    requires Init(s) && aw <= 22
    ensures Invariant(aw, s)
  {
  }

  lemma InvariantStep(aw: nat, s: System, i: Input)
    requires Invariant(aw, s) && Legal(aw, s, i)
    ensures Invariant(aw, Step(aw, s, i))
  {
    SameSize(s.flash, s.regs.csn, s.lclsck, s.regs.Mosi());
    ControlStep(aw, s, i);
    PendingStep(aw, s, i);
    OwedStep(aw, s, i);
    OnWireStep(aw, s, i);
    CommandingStep(aw, s, i);
    FetchingStep(aw, s, i);
    FetchedStep(aw, s, i);
    SendingStep(aw, s, i);
    RepliedStep(aw, s, i);
  }

  /** Every reachable state. */
  lemma {:induction false} RunInvariant(aw: nat, s: System, inputs: seq<Input>)
    requires Invariant(aw, s) && LegalRun(aw, s, inputs)
    ensures Invariant(aw, Run(aw, s, inputs))
  {
    if |inputs| == 0 {
    } else {
      RunInvariant(aw, s, inputs[..|inputs| - 1]);
      InvariantStep(aw, Run(aw, s, inputs[..|inputs| - 1]), inputs[|inputs| - 1]);
    }
  }

  // ---- Reads -----------------------------------------------------------------------------

  /** The flash was ready, and speaking a protocol this model follows, when it was selected. */
  predicate Ready(s: System) {
    !s.wire.base.Busy() && !s.wire.base.state.Lost?
  }

  /** Every acknowledged read of a ready flash delivers the word it has reached, whether the
      command was sent for it or it continues the read before it. */
  lemma FetchDelivers(aw: nat, s: System)
    requires Invariant(aw, s) && Ready(s)
    requires s.regs.ack && s.ledger.queue[0].Fetch? && 4 * s.ledger.queue[0].line + 3 < SIZE
    ensures s.regs.data == WordAt(s.flash.mem, s.ledger.queue[0].line)
  {
    var w, line := s.wire, s.ledger.queue[0].line;
    AnswersWord(w.base, w.sent, s.ledger.first, line);
    ShiftsKeep(w.base, w.sent);
    assert Latest(s.regs.data, 32) == s.regs.data;
  }

  /** In every run, an acknowledged read of a ready flash returns the word the burst has reached,
      and that is the word at its address if and only if the burst has not run over the top of
      the controller's address space. */
  lemma ReadsReturnLine(aw: nat, s: System, inputs: seq<Input>)
    requires Init(s) && aw <= 22 && LegalRun(aw, s, inputs)
    ensures var t := Run(aw, s, inputs);
      t.regs.ack && |t.ledger.queue| > 0 && t.ledger.queue[0].Fetch? && Ready(t) ==>
        var job := t.ledger.queue[0];
        && (4 * job.line + 3 < |t.flash.mem| ==> t.regs.data == WordAt(t.flash.mem, job.line))
        && job.addr < Pow2(aw) && (job.addr == job.line <==> job.line < Pow2(aw))
  {
    InitInvariant(aw, s);
    RunInvariant(aw, s, inputs);
    hide Run, OnWire, Commanding, Fetching, Fetched, Sending, Replied, Pending, Control;
    var t := Run(aw, s, inputs);
    if t.regs.ack && |t.ledger.queue| > 0 && t.ledger.queue[0].Fetch? && Ready(t)
      && 4 * t.ledger.queue[0].line + 3 < SIZE
    {
      FetchDelivers(aw, t);
    }
  }

  /** End to end: in every run, an acknowledged read returns the flash word at its address,
      unless a sequential burst has run over the top of the controller's address space. */
  lemma ReadsReturnFlash(aw: nat, s: System, inputs: seq<Input>)
    requires Init(s) && aw <= 22 && LegalRun(aw, s, inputs)
    ensures var t := Run(aw, s, inputs);
      t.regs.ack && |t.ledger.queue| > 0 && t.ledger.queue[0].Fetch? && Ready(t)
      && t.ledger.queue[0].line < Pow2(aw) ==>
        && 4 * t.ledger.queue[0].addr + 3 < |t.flash.mem|
        && t.regs.data == WordAt(t.flash.mem, t.ledger.queue[0].addr)
  {
    InitInvariant(aw, s);
    RunInvariant(aw, s, inputs);
    var t := Run(aw, s, inputs);
    if t.regs.ack && |t.ledger.queue| > 0 && t.ledger.queue[0].Fetch? && Ready(t)
      && t.ledger.queue[0].line < Pow2(aw)
    {
      Pow2Monotonic(aw, 22);
      Pow2Constants();
      FetchDelivers(aw, t);
    }
  }

  /** The exception happens: in a burst at the last word, a request for address zero is taken
      as its continuation, to be answered with the word past the end. */
  lemma WrapIsTaken(aw: nat, s: System, i: Input)
    requires Invariant(aw, s) && Legal(aw, s, i)
    requires !s.regs.user && s.regs.delay == 2 && s.ledger.line + 1 == Pow2(aw)
    requires i.stb && i.cyc && !i.we && !i.reset && i.addr == 0
    ensures var u := Step(aw, s, i); !u.regs.csn && u.regs.BusRequest(i)
    ensures NewJob(Step(aw, s, i), i) == Fetch(0, Pow2(aw))
  {
    assert s.regs.nextAddr == 0;
  }

  // ---- Acknowledgements ---------------------------------------------------------------------

  /** The cycle is held, without a reset. */
  predicate Kept(inputs: seq<Input>) {
    forall k :: 0 <= k < |inputs| ==> inputs[k].cyc && !inputs[k].reset
  }

  /** A request in flight stays the one in flight, one clock nearer to its acknowledgement. */
  lemma CountsDown(aw: nat, s: System, i: Input)
    requires Invariant(aw, s) && Legal(aw, s, i) && i.cyc && !i.reset && s.regs.delay > 0
    ensures var s', q := Step(aw, s, i), s.ledger.queue;
      if s.regs.delay == 1 then
        s'.regs.ack && |s'.ledger.queue| > 0 && s'.ledger.queue[0] == q[|q| - 1]
      else
        s'.regs.delay == s.regs.delay - 1 && s'.ledger.queue == [q[|q| - 1]]
  {
  }

  /** A request whose counter stands at `delay` is acknowledged exactly that many clocks on:
      65 for a fresh read, 32 for a sequential one, 9 for a configuration byte. */
  lemma {:induction false} AckOnTime(aw: nat, s: System, inputs: seq<Input>)
    requires Invariant(aw, s) && LegalRun(aw, s, inputs) && Kept(inputs)
    requires 0 < |inputs| <= s.regs.delay
    ensures var t, q := Run(aw, s, inputs), s.ledger.queue;
      if |inputs| == s.regs.delay then
        t.regs.ack && |t.ledger.queue| > 0 && t.ledger.queue[0] == q[|q| - 1]
      else
        t.regs.delay == s.regs.delay - |inputs| && t.ledger.queue == [q[|q| - 1]]
  {
    hide Invariant, Step, Legal;
    var before, last := inputs[..|inputs| - 1], inputs[|inputs| - 1];
    RunInvariant(aw, s, before);
    if |before| != 0 {
      AckOnTime(aw, s, before);
    }
    assert last.cyc && !last.reset;
    CountsDown(aw, Run(aw, s, before), last);
  }

  /** What every clock does to the debt: an acknowledgement settles the oldest request, an
      accepted request joins at the end, and only the end of the cycle forgives the rest. */
  lemma OneAckEach(aw: nat, s: System, i: Input)
    requires Invariant(aw, s) && Legal(aw, s, i) && i.cyc && !i.reset
    ensures |s.ledger.queue| <= 2 && (s.regs.ack ==> |s.ledger.queue| > 0)
    ensures var q, q' := s.ledger.queue, Step(aw, s, i).ledger.queue;
      q' == (if s.regs.ack then q[1..] else q) + (if s.regs.Accepts(i) then [NewJob(s, i)] else [])
    ensures s.regs.Accepts(i) && NewJob(s, i).Immediate? ==>
      Step(aw, s, i).regs.ack && Step(aw, s, i).ledger.queue == [Immediate]
  {
    assert s.regs.Accepts(i) && NewJob(s, i).Immediate? ==> s.regs.delay == 0;
  }

  // ---- Configuration bytes ------------------------------------------------------------------

  /** Whole bytes have gone in: the device is at a byte boundary. */
  predicate Aligned(g: Flash, n: nat) {
    g.state.Lost? || (g.count == 8 * n && g.count < 0x1_0000_0000)
  }

  lemma PushAligns(g: Flash, b: byte, n: nat)
    requires Aligned(g, n) && 8 * (n + 1) < 0x1_0000_0000
    ensures Aligned(PushByte(g, b), n + 1)
  {
    DispatchCounts(TakeIn(g, BitsOf(b, 8)));
  }

  lemma {:induction false} BytesAlign(f: Flash, bytes: seq<byte>)
    requires Aligned(f, 0) && 8 * |bytes| < 0x1_0000_0000
    ensures Aligned(PushBytes(f, bytes), |bytes|)
  {
    if |bytes| == 0 {
    } else {
      BytesAlign(f, bytes[..|bytes| - 1]);
      PushAligns(PushBytes(f, bytes[..|bytes| - 1]), bytes[|bytes| - 1], |bytes| - 1);
    }
  }

  lemma PushArrives(g: Flash, b: byte, n: nat)
    requires Aligned(g, n)
    ensures Shifts(g, BitsOf(b, 8)) == PushByte(g, b)
  {
    if g.state.Lost? {
      LostForever(g, BitsOf(b, 8));
    } else {
      ByteArrives(g, b);
    }
  }

  lemma {:induction false} BytesReach(f: Flash, bytes: seq<byte>)
    requires Aligned(f, 0) && 8 * |bytes| < 0x1_0000_0000
    ensures Shifts(f, BytesBits(bytes)) == PushBytes(f, bytes)
  {
    if |bytes| == 0 {
    } else {
      var front, b := bytes[..|bytes| - 1], bytes[|bytes| - 1];
      calc {
        Shifts(f, BytesBits(bytes));
        { ShiftsSplit(f, BytesBits(front), BitsOf(b, 8)); }
        Shifts(Shifts(f, BytesBits(front)), BitsOf(b, 8));
        { BytesReach(f, front); }
        Shifts(PushBytes(f, front), BitsOf(b, 8));
        { BytesAlign(f, front); PushArrives(PushBytes(f, front), b, |front|); }
        PushByte(PushBytes(f, front), b);
      }
    }
  }

  /** Between configuration bytes, a flash that was not busy has received exactly the bytes
      written since it was selected: none lost, added or misaligned. */
  lemma ConfigDelivers(aw: nat, s: System)
    requires Invariant(aw, s) && !s.wire.base.Busy() && 8 * |s.ledger.bytes| < 0x1_0000_0000
    requires s.regs.user && s.regs.delay == 0 && s.ledger.aligned
    ensures s.flash == PushBytes(s.wire.base, s.ledger.bytes)
  {
    BytesReach(s.wire.base, s.ledger.bytes);
  }

  lemma LatestOfSum(x: seq<bool>, y: seq<bool>)
    ensures Latest(x + y, |y|) == y
  {
  }

  lemma ReplyIsReady(f: Flash, sent: seq<bool>, g: Flash, n: nat, b: byte)
    requires g == Shifts(f, sent) && Aligned(g, n) && !g.state.Lost? && !g.state.SlowRead?
    ensures Latest(Outputs(f, sent + BitsOf(b, 8)), 8) == g.oreg[24..]
  {
    hide Dispatch;
    OutputsSplit(f, sent, BitsOf(b, 8));
    RepliesLowByte(g, b);
    LatestOfSum(Outputs(f, sent), g.oreg[24..]);
  }

  /** An acknowledged configuration byte returns, under the constant upper bits, the byte the
      flash had ready when it came.  (Only a read command could blank its last bit.) */
  lemma ReplyDelivers(aw: nat, s: System)
    requires Invariant(aw, s) && !s.wire.base.Busy() && 8 * |s.ledger.bytes| < 0x1_0000_0000
    requires s.regs.ack && s.ledger.queue[0].Transfer? && s.ledger.aligned
    ensures |s.ledger.bytes| > 0 && s.ledger.queue[0].payload == s.ledger.bytes[|s.ledger.bytes| - 1]
    ensures var g := PushBytes(s.wire.base, s.ledger.bytes[..|s.ledger.bytes| - 1]);
      !g.state.Lost? && !g.state.SlowRead? ==> s.regs.data == UserData(g.oreg[24..])
  {
    var base, bytes := s.wire.base, s.ledger.bytes;
    var front := bytes[..|bytes| - 1];
    BytesReach(base, front);
    BytesAlign(base, front);
    var g := PushBytes(base, front);
    if !g.state.Lost? && !g.state.SlowRead? {
      ReplyIsReady(base, BytesBits(front), g, |front|, bytes[|bytes| - 1]);
    }
  }

  /** Writing 0x100 ends the command: one clock later the flash acts on exactly the bytes
      written, whatever the bus does meanwhile. */
  lemma ReleaseDelivers(aw: nat, s: System, i: Input, j: Input)
    requires Invariant(aw, s) && !s.wire.base.Busy() && 8 * |s.ledger.bytes| < 0x1_0000_0000
    requires s.regs.user && s.regs.delay == 0 && s.ledger.aligned
    requires Legal(aw, s, i) && i.cfgStb && i.we && i.Release()
    ensures Step(aw, Step(aw, s, i), j).flash == Tick(Deselect(PushBytes(s.wire.base, s.ledger.bytes)))
  {
    var t := Step(aw, s, i);
    ConfigDelivers(aw, s);
    ShiftsKeep(s.wire.base, s.wire.sent);
    QuietTick(s.flash, s.lclsck, s.regs.Mosi());
    assert t.flash == s.flash && t.regs.csn;
    Settles(t.flash, t.lclsck, t.regs.Mosi());
  }

  lemma CommandLength(a: nat, data: seq<byte>)
    ensures 8 * |ProgramCommand(a, data)| == 32 + 8 * |data|
  {
  }

  /** Through the configuration port, end to end: a page-program string written to a flash
      that is ready and write-enabled ANDs exactly the bytes written into one page. */
  lemma PageProgramDelivers(aw: nat, s: System, i: Input, j: Input, a: nat, data: seq<byte>)
    requires Invariant(aw, s) && Fresh(s.wire.base) && !s.wire.base.Busy() && s.wire.base.wel
    requires a < SIZE && 40 + 8 * |data| < 0x1_0000_0000
    requires s.regs.user && s.regs.delay == 0 && s.ledger.aligned
    requires s.ledger.bytes == ProgramCommand(a, data)
    requires Legal(aw, s, i) && i.cfgStb && i.we && i.Release()
    ensures var f := Step(aw, Step(aw, s, i), j).flash;
      f.mem == AndPage(s.wire.base.mem, PageOf(a), Overlay(a, data)) && f.wip && !f.wel
  {
    hide Invariant, Step, Legal, PushBytes, Deselect, Overlay, AndPage, PageOf, ProgramCommand;
    CommandLength(a, data);
    ReleaseDelivers(aw, s, i, j);
    ProgramEffect(s.wire.base, a, data);
  }
}
