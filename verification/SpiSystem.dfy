/** The controller wired to the flash, as sim/main_tb.cpp wires them: one `simtick` on the
    falling half of every clock, its MISO seen by the next rising edge.

    The log kept beside the two devices records what crossed the wire since the chip was
    last selected and which bus requests are still owed an acknowledgement.
 */
module SpiSystem {
  import opened Bits
  import opened FlashDevice
  import opened FlashRead
  import opened SpiXpress

  /** A request the core has accepted.  `line` counts words from the start of the flash
      without wrapping; it is the word a sequential read has reached. */
  datatype Job = Fetch(addr: nat, line: nat) | Transfer(payload: byte) | Immediate

  /** The flash as of the last clock with chip select high, and the bits since. */
  datatype Wire = Wire(base: Flash, sent: seq<bool>, got: seq<bool>)

  /** A request that met a stall and must be held. */
  datatype Hold = Free | Held(request: Input)

  /** `first` and `line` are the first and latest word of the current burst; `bytes` the
      configuration bytes written since the chip was selected; `aligned` is lost when the
      bus cycle is dropped in the middle of one of them. */
  datatype Ledger = Ledger(
    queue: seq<Job>, hold: Hold, first: nat, line: nat, bytes: seq<byte>, aligned: bool)

  datatype System = System(regs: Regs, flash: Flash, lclsck: bool, wire: Wire, ledger: Ledger)

  // ---- One clock -----------------------------------------------------------------

  function NextFlash(s: System): Flash {
    SimTick(s.flash, s.regs.csn, s.lclsck, s.regs.Mosi())
  }

  function NextWire(s: System): Wire {
    var f := NextFlash(s);
    if s.regs.csn then Wire(f, [], [])
    else if s.lclsck then
      s.wire.(sent := s.wire.sent + [s.regs.Mosi()], got := s.wire.got + [Miso(f, false)])
    else s.wire
  }

  function NextLine(s: System, i: Input): nat {
    if !s.regs.BusRequest(i) then s.ledger.line
    else if s.regs.csn then i.addr
    else s.ledger.line + 1
  }

  function NewJob(s: System, i: Input): Job {
    if s.regs.BusRequest(i) then Fetch(i.addr, NextLine(s, i))
    else if s.regs.UserRequest(i) then Transfer(i.Payload())
    else Immediate
  }

  function NextQueue(s: System, i: Input): seq<Job> {
    if i.reset || !i.cyc then []
    else
      (if s.regs.ack && |s.ledger.queue| > 0 then s.ledger.queue[1..] else s.ledger.queue)
      + (if s.regs.Accepts(i) then [NewJob(s, i)] else [])
  }

  function NextLedger(s: System, i: Input): Ledger {
    Ledger(
      queue := NextQueue(s, i),
      hold := if i.cyc && !i.reset && (i.stb || i.cfgStb) && s.regs.stall then Held(i) else Free,
      first := if s.regs.BusRequest(i) && s.regs.csn then i.addr else s.ledger.first,
      line := NextLine(s, i),
      bytes := (if s.regs.csn then [] else s.ledger.bytes)
               + (if s.regs.UserRequest(i) then [i.Payload()] else []),
      aligned := s.regs.csn || (s.ledger.aligned && (!s.regs.user || s.regs.delay == 0 || i.cyc)))
  }

  function Step(aw: nat, s: System, i: Input): System {
    System(
      regs := Next(aw, s.regs, i, Miso(NextFlash(s), s.regs.csn)),
      flash := NextFlash(s),
      lclsck := s.regs.sck,
      wire := NextWire(s),
      ledger := NextLedger(s, i))
  }

  /** What pipelined Wishbone asks of the bus: strobes only within a cycle, one strobe at
      a time, and a stalled request held until it is taken or the cycle ends. */
  predicate Legal(aw: nat, s: System, i: Input) {
    && (i.stb || i.cfgStb ==> i.cyc)
    && !(i.stb && i.cfgStb)
    && i.addr < Pow2(aw)
    && (s.ledger.hold.Held? && i.cyc && !i.reset ==> i == s.ledger.hold.request)
  }

  function Run(aw: nat, s: System, inputs: seq<Input>): System {
    if |inputs| == 0 then s
    else Step(aw, Run(aw, s, inputs[..|inputs| - 1]), inputs[|inputs| - 1])
  }

  predicate LegalRun(aw: nat, s: System, inputs: seq<Input>) {
    |inputs| != 0 ==>
      var before := inputs[..|inputs| - 1];
      LegalRun(aw, s, before) && Legal(aw, Run(aw, s, before), inputs[|inputs| - 1])
  }

  // ---- The control registers ------------------------------------------------------

  /** The assertions of lines 388 to 411, and what is needed beside them. */
  predicate Control(r: Regs, lclsck: bool) {
    && r.csn == !(r.user || r.delay > 0)
    && (r.sck || r.actualSck) == (r.delay > 0)
    && r.delay <= (if r.user then 9 else 65)
    && (r.delay == 0 ==> !r.stall)
    && (r.delay > 1 ==> r.stall && r.sck)
    && (r.delay > 0 ==> lclsck == r.actualSck == (r.delay != (if r.user then 9 else 65)))
    && (r.delay == 1 ==> r.stall == (r.user || !r.sck))
    && (r.user ==> r.delay <= 1 ==> !r.sck)
  }

  /** With the stall lifted one clock early, the next word's request is already waiting. */
  predicate Pending(s: System) {
    !s.regs.user && s.regs.delay == 1 && !s.regs.stall ==>
      && s.ledger.hold.Held?
      && var h := s.ledger.hold.request;
         h.stb && !h.cfgStb && !h.we && h.cyc && h.addr == s.regs.nextAddr
  }

  lemma ControlStep(aw: nat, s: System, i: Input)
    requires Control(s.regs, s.lclsck) && Pending(s) && Legal(aw, s, i)
    ensures Control(Step(aw, s, i).regs, s.regs.sck)
  {
  }

  lemma PendingStep(aw: nat, s: System, i: Input)
    requires Control(s.regs, s.lclsck) && Pending(s) && Legal(aw, s, i)
    ensures Pending(Step(aw, s, i))
  {
  }

  // ---- Acknowledgements --------------------------------------------------------------

  function OneIf(b: bool): nat {
    if b then 1 else 0
  }

  /** The address a word is asked for by, against the word itself: they part exactly if the
      address has wrapped. */
  predicate Names(aw: nat, addr: nat, line: nat) {
    addr < Pow2(aw) && (addr == line <==> line < Pow2(aw))
  }

  /** Each accepted request is owed one acknowledgement, in order; at most two are owed.
      The request in flight is the last; the one being acknowledged is the first. */
  predicate Owed(aw: nat, s: System) {
    var r, l, q := s.regs, s.ledger, s.ledger.queue;
    && |q| == OneIf(r.ack) + OneIf(r.delay > 0)
    && (r.delay > 0 && r.user ==> !r.ack && q[0].Transfer?)
    && (r.delay > 0 && !r.user ==>
          && q[|q| - 1].Fetch? && q[|q| - 1].line == l.line
          && r.nextAddr == Succ(aw, q[|q| - 1].addr)
          && Names(aw, q[|q| - 1].addr, l.line)
          && (r.ack ==> q[0].Fetch? && q[0].line + 1 == l.line && r.delay == 32))
    && (r.ack && r.delay == 0 && q[0].Fetch? ==> q[0].line == l.line)
    && (r.ack && q[0].Fetch? ==> Names(aw, q[0].addr, q[0].line) && !r.user)
    && (r.ack && q[0].Transfer? ==> r.user)
  }

  lemma OwedStep(aw: nat, s: System, i: Input)
    requires Control(s.regs, s.lclsck) && Pending(s) && Owed(aw, s) && Legal(aw, s, i)
    ensures Owed(aw, Step(aw, s, i))
  {
  }

  // ---- The wire ------------------------------------------------------------------------

  /** Unless it was still busy when selected, the flash is where the bits took it. */
  ghost predicate OnWire(s: System)
  {
    var f, w := s.flash, s.wire;
    && |w.sent| == |w.got|
    && f.lastSck && Standby(w.base)
    && (!w.base.Busy() ==> f == Shifts(w.base, w.sent) && w.got == Outputs(w.base, w.sent))
  }

  lemma OnWireStep(aw: nat, s: System, i: Input)
    requires OnWire(s)
    ensures OnWire(Step(aw, s, i))
  {
    var f, w, mosi := s.flash, s.wire, s.regs.Mosi();
    TickKeepsClockHigh(f, s.regs.csn, s.lclsck, mosi);
    if s.regs.csn {
      DeselectedIsStandby(f, s.lclsck, mosi);
    } else if !w.base.Busy() {
      ShiftsKeep(w.base, w.sent);
      QuietTick(f, s.lclsck, mosi);
      var sent := w.sent + [mosi];
      assert sent[..|sent| - 1] == w.sent;
    }
  }

  // ---- Reading -------------------------------------------------------------------------

  function Latest(bits: seq<bool>, n: nat): seq<bool>
    requires n <= |bits|
  {
    bits[|bits| - n..]
  }

  /** In the middle of a memory access one bit moves in each direction. */
  predicate BitMoved(s: System, s': System) {
    exists miso ::
      && s'.wire.sent == s.wire.sent + [s.regs.Mosi()]
      && s'.wire.got == s.wire.got + [miso]
      && s'.regs.data == s.regs.data[1..] + [miso]
  }

  /** How a clock can leave a memory access in flight. */
  lemma MemoryMoves(aw: nat, s: System, i: Input)
    requires Control(s.regs, s.lclsck) && Pending(s) && Legal(aw, s, i)
    ensures var s' := Step(aw, s, i); var d, d', l, l' := s.regs.delay, s'.regs.delay, s.ledger, s'.ledger;
      !s'.regs.user && d' > 0 ==>
        && !s.regs.user
        && (if d == 0 then
              s.regs.csn && d' == 65 && l'.first == l'.line == i.addr && i.stb && !s.regs.stall
            else
              && !s.regs.csn && l'.first == l.first
              && l'.line == (if d == 1 then l.line + 1 else l.line)
              && d' == (if d == 1 then 32 else d - 1)
              && (d > 1 ==> s.regs.stall))
  {
  }

  lemma MemoryClock(aw: nat, s: System, i: Input)
    requires Control(s.regs, s.lclsck) && !s.regs.user && 0 < s.regs.delay < 65
    ensures BitMoved(s, Step(aw, s, i))
  {
    var miso := Miso(NextFlash(s), false);
    assert Step(aw, s, i).wire.got == s.wire.got + [miso];
  }

  /** Of the fresh command `c`, `64 - delay` bits are on the wire and the rest in the pipe. */
  predicate CommandAt(pipe: pipeline, sent: seq<bool>, c: word, delay: nat)
    requires 32 < delay <= 65
  {
    if delay == 65 then sent == [] && pipe == [false] + c
    else
      var n := 64 - delay;
      sent == c[..n] && pipe == c[n..] + Zeros(n + 1)
  }

  lemma CommandMoves(pipe: pipeline, sent: seq<bool>, c: word, delay: nat)
    requires 33 < delay <= 65 && CommandAt(pipe, sent, c, delay)
    ensures CommandAt(pipe[1..] + [false], if delay == 65 then sent else sent + [pipe[0]], c, delay - 1)
  {
    var n := if delay == 65 then 0 else 65 - delay;
    assert pipe[1..] + [false] == c[n..] + Zeros(n + 1);
  }

  lemma CommandComplete(pipe: pipeline, sent: seq<bool>, c: word)
    requires CommandAt(pipe, sent, c, 33)
    ensures sent + [pipe[0]] == c
  {
  }

  predicate Commanding(s: System) {
    var r, l := s.regs, s.ledger;
    !r.user && 32 < r.delay <= 65 ==>
      l.first == l.line && CommandAt(r.pipe, s.wire.sent, ReadCommand(l.first), r.delay)
  }

  lemma CommandStarts(aw: nat, s: System, i: Input)
    requires s.regs.csn && !s.regs.stall && i.stb
    ensures var s' := Step(aw, s, i);
      CommandAt(s'.regs.pipe, s'.wire.sent, ReadCommand(i.addr), 65)
  {
    hide NextFlash, NextLedger, NextData, NextDelay, NextCsn, NextSck, NextStall, NextAck, NextUser, BitsOf;
    assert NextPipe(s.regs, i) == [false] + ReadCommand(i.addr);
  }

  lemma CommandContinues(aw: nat, s: System, i: Input)
    requires Control(s.regs, s.lclsck) && !s.regs.user && 33 < s.regs.delay <= 65
    requires Commanding(s)
    ensures var s' := Step(aw, s, i);
      CommandAt(s'.regs.pipe, s'.wire.sent, ReadCommand(s.ledger.first), s.regs.delay - 1)
  {
    CommandMoves(s.regs.pipe, s.wire.sent, ReadCommand(s.ledger.first), s.regs.delay);
  }

  lemma CommandingStep(aw: nat, s: System, i: Input)
    requires Control(s.regs, s.lclsck) && Pending(s) && Legal(aw, s, i) && Commanding(s)
    ensures Commanding(Step(aw, s, i))
  {
    MemoryMoves(aw, s, i);
    var s' := Step(aw, s, i);
    if !s'.regs.user && s'.regs.delay > 32 {
      if s.regs.delay == 0 {
        CommandStarts(aw, s, i);
      } else {
        CommandContinues(aw, s, i);
      }
    }
  }

  lemma LatestGrows(a: seq<bool>, b: seq<bool>, n: nat, bit: bool)
    requires n < |a| && n <= |b| && Latest(a, n) == Latest(b, n)
    ensures Latest(a[1..] + [bit], n + 1) == Latest(b + [bit], n + 1)
  {
    assert Latest(a[1..] + [bit], n + 1) == Latest(a, n) + [bit];
    assert Latest(b + [bit], n + 1) == Latest(b, n) + [bit];
  }

  /** `n` bits of word `line` have come in, of a burst that began with word `first`. */
  predicate Received(r: Regs, w: Wire, first: nat, line: nat, n: nat) {
    && first <= line && n <= 32
    && |w.sent| == |w.got| == 32 * (line - first) + 32 + n
    && w.sent[..32] == ReadCommand(first)
    && Latest(r.data, n) == Latest(w.got, n)
  }

  predicate Fetching(s: System) {
    var r, l := s.regs, s.ledger;
    !r.user && 0 < r.delay <= 32 ==> Received(r, s.wire, l.first, l.line, 32 - r.delay)
  }

  /** The command has been sent in full. */
  lemma BeginFetch(s: System, s': System)
    requires Commanding(s) && !s.regs.user && s.regs.delay == 33 && |s.wire.got| == |s.wire.sent|
    requires BitMoved(s, s')
    ensures Received(s'.regs, s'.wire, s.ledger.first, s.ledger.first, 0)
  {
    var c := ReadCommand(s.ledger.first);
    CommandComplete(s.regs.pipe, s.wire.sent, c);
    assert s'.wire.sent[..32] == c;
  }

  lemma ContinueFetch(s: System, s': System)
    requires Fetching(s) && !s.regs.user && 0 < s.regs.delay <= 32 && BitMoved(s, s')
    ensures Received(s'.regs, s'.wire, s.ledger.first, s.ledger.line, 33 - s.regs.delay)
  {
    var miso :| s'.wire.got == s.wire.got + [miso] && s'.regs.data == s.regs.data[1..] + [miso];
    LatestGrows(s.regs.data, s.wire.got, 32 - s.regs.delay, miso);
    assert s'.wire.sent[..32] == s.wire.sent[..32];
  }

  lemma NextWord(r: Regs, w: Wire, first: nat, line: nat)
    requires Received(r, w, first, line, 32)
    ensures Received(r, w, first, line + 1, 0)
  {
  }

  lemma FetchingStep(aw: nat, s: System, i: Input)
    requires Control(s.regs, s.lclsck) && Pending(s) && Legal(aw, s, i)
    requires |s.wire.sent| == |s.wire.got| && Commanding(s) && Fetching(s)
    ensures Fetching(Step(aw, s, i))
  {
    var s' := Step(aw, s, i);
    MemoryMoves(aw, s, i);
    if !s'.regs.user && 0 < s'.regs.delay <= 32 {
      MemoryClock(aw, s, i);
      if s.regs.delay == 33 {
        BeginFetch(s, s');
      } else {
        ContinueFetch(s, s');
        if s.regs.delay == 1 {
          NextWord(s'.regs, s'.wire, s.ledger.first, s.ledger.line);
        }
      }
    }
  }

  /** An acknowledged fetch: the data register holds the last 32 bits that came in. */
  predicate Fetched(s: System) {
    var l := s.ledger;
    s.regs.ack && |l.queue| > 0 && l.queue[0].Fetch? ==>
      Received(s.regs, s.wire, l.first, l.queue[0].line, 32)
  }

  /** Only the end of a memory access acknowledges a fetch. */
  lemma AckMoves(aw: nat, s: System, i: Input)
    requires Control(s.regs, s.lclsck) && Pending(s) && Legal(aw, s, i) && Owed(aw, s)
    ensures var s' := Step(aw, s, i); var q' := s'.ledger.queue;
      s'.regs.ack && |q'| > 0 ==>
        && (q'[0].Fetch? ==>
              !s.regs.user && s.regs.delay == 1 && q'[0].line == s.ledger.line
              && s'.ledger.first == s.ledger.first)
        && (q'[0].Transfer? ==>
              s.regs.user && s.regs.delay == 1 && q'[0] == s.ledger.queue[0]
              && s'.ledger.bytes == s.ledger.bytes && s'.ledger.aligned == s.ledger.aligned)
  {
  }

  lemma FetchedStep(aw: nat, s: System, i: Input)
    requires Control(s.regs, s.lclsck) && Pending(s) && Legal(aw, s, i) && Owed(aw, s)
    requires Fetching(s)
    ensures Fetched(Step(aw, s, i))
  {
    var s' := Step(aw, s, i);
    AckMoves(aw, s, i);
    if s'.regs.ack && |s'.ledger.queue| > 0 && s'.ledger.queue[0].Fetch? {
      MemoryClock(aw, s, i);
      ContinueFetch(s, s');
    }
  }

  // ---- Configuration bytes ---------------------------------------------------------------

  /** What a string of bytes looks like on the wire: every byte top bit first. */
  function BytesBits(bytes: seq<byte>): seq<bool> {
    if |bytes| == 0 then []
    else BytesBits(bytes[..|bytes| - 1]) + BitsOf(bytes[|bytes| - 1], 8)
  }

  /** Of the byte `b`, `8 - delay` bits have been exchanged after those of `front`. */
  predicate ByteAt(r: Regs, w: Wire, front: seq<byte>, b: byte)
    requires 0 < r.delay <= 9
  {
    var n := if r.delay == 9 then 0 else 8 - r.delay;
    && w.sent == BytesBits(front) + BitsOf(b, 8)[..n]
    && |w.sent| == |w.got|
    && (if r.delay == 9 then r.pipe[1..9] == BitsOf(b, 8)
        else
          && r.pipe[..r.delay] == BitsOf(b, 8)[n..]
          && r.data[..24] == Zeros(19) + [true] + Zeros(4)
          && Latest(r.data, n) == Latest(w.got, n))
  }

  predicate Sending(s: System) {
    var r, w, l := s.regs, s.wire, s.ledger;
    r.user && l.aligned ==>
      if r.delay == 0 then !s.lclsck && w.sent == BytesBits(l.bytes)
      else
        && |l.bytes| > 0
        && var n := |l.bytes| - 1;
        && l.queue == [Transfer(l.bytes[n])]
        && r.delay <= 9 && ByteAt(r, w, l.bytes[..n], l.bytes[n])
  }

  /** An acknowledged configuration byte: the data register holds what came back. */
  predicate Replied(s: System) {
    var r, w, l := s.regs, s.wire, s.ledger;
    r.ack && |l.queue| > 0 && l.queue[0].Transfer? && l.aligned ==>
      && r.user && r.delay == 0 && |l.bytes| > 0 && l.queue[0].payload == l.bytes[|l.bytes| - 1]
      && w.sent == BytesBits(l.bytes) && |w.got| == |w.sent| >= 8
      && r.data == UserData(Latest(w.got, 8))
  }

  /** How a clock can leave the core in configuration mode. */
  lemma UserMoves(aw: nat, s: System, i: Input)
    requires Control(s.regs, s.lclsck) && Pending(s) && Legal(aw, s, i) && Owed(aw, s)
    ensures var s' := Step(aw, s, i); var d, d', l, l' := s.regs.delay, s'.regs.delay, s.ledger, s'.ledger;
      s'.regs.user && l'.aligned ==>
        if s.regs.UserRequest(i) then
          && d == 0 && d' == 9 && !s.regs.stall && !i.stb
          && l'.queue == [Transfer(i.Payload())]
          && (s.regs.user ==> l.aligned && !s.regs.csn && l'.bytes == l.bytes + [i.Payload()])
          && (!s.regs.user ==> s.regs.csn && l'.bytes == [i.Payload()])
        else
          && s.regs.user && l.aligned && !s.regs.csn && l'.bytes == l.bytes
          && (d == 0 ==> d' == 0) && (d > 0 ==> d' == d - 1 && s.regs.stall && i.cyc)
          && (d > 1 ==> l'.queue == l.queue)
  {
  }

  /** In the middle of a configuration byte one bit moves in each direction. */
  predicate ReplyMoved(r: Regs, r': Regs, w: Wire, w': Wire, miso: bool) {
    && w'.sent == w.sent + [r.Mosi()]
    && w'.got == w.got + [miso]
    && r'.data == UserData(r.data[25..] + [miso])
  }

  lemma UserClock(aw: nat, s: System, i: Input)
    requires Control(s.regs, s.lclsck) && s.regs.user && s.regs.delay > 0
    ensures var s' := Step(aw, s, i);
      if s.regs.delay == 9 then s'.wire == s.wire && s'.regs.data == UserData(s.regs.data[24..])
      else ReplyMoved(s.regs, s'.regs, s.wire, s'.wire, Miso(NextFlash(s), false))
  {
  }

  lemma ByteStarts(aw: nat, s: System, i: Input)
    requires |s.wire.sent| == |s.wire.got| && Control(s.regs, s.lclsck) && s.regs.UserRequest(i) && !i.reset && i.cyc && !i.stb
    requires s.regs.csn || (s.regs.delay == 0 && !s.lclsck && s.wire.sent == BytesBits(s.ledger.bytes))
    ensures var s' := Step(aw, s, i);
      ByteAt(s'.regs, s'.wire, if s.regs.csn then [] else s.ledger.bytes, i.Payload())
  {
    var b := BitsOf(i.Payload(), 8);
    var s' := Step(aw, s, i);
    assert s'.regs.pipe[1..9] == b;
    assert s'.wire.sent == s'.wire.sent + b[..0];
  }

  lemma PipeBit(pipe: pipeline, d: nat, bits: seq<bool>)
    requires 1 <= d <= 8 && |bits| == 8 && pipe[..d] == bits[8 - d..]
    ensures pipe[0] == bits[8 - d]
    ensures (pipe[1..] + [false])[..d - 1] == bits[9 - d..]
  {
    assert pipe[0] == pipe[..d][0];
    assert (pipe[1..] + [false])[..d - 1] == pipe[..d][1..];
  }

  lemma ByteOpens(r: Regs, r': Regs, w: Wire, front: seq<byte>, b: byte)
    requires r.delay == 9 && ByteAt(r, w, front, b) && r'.delay == 8
    requires r'.pipe == r.pipe[1..] + [false] && r'.data == UserData(r.data[24..])
    ensures ByteAt(r', w, front, b)
  {
    var bits := BitsOf(b, 8);
    assert r'.pipe[..8] == r.pipe[1..9];
    assert bits[..0] == [] && bits[0..] == bits;
  }

  lemma SentBit(front: seq<bool>, bits: seq<bool>, n: nat)
    requires n < |bits|
    ensures front + bits[..n] + [bits[n]] == front + bits[..n + 1]
  {
    assert bits[..n] + [bits[n]] == bits[..n + 1];
  }

  lemma ByteMoves(r: Regs, r': Regs, w: Wire, w': Wire, front: seq<byte>, b: byte, miso: bool)
    requires 1 < r.delay <= 8 && ByteAt(r, w, front, b) && r'.delay == r.delay - 1
    requires r'.pipe == r.pipe[1..] + [false] && ReplyMoved(r, r', w, w', miso)
    ensures ByteAt(r', w', front, b)
  {
    hide UserData, Latest, BytesBits, BitsOf;
    var f, bits, n := BytesBits(front), BitsOf(b, 8), 8 - r.delay;
    PipeBit(r.pipe, r.delay, bits);
    SentBit(f, bits, n);
    ReplyGrows(r.data, w.got, n, miso);
  }

  lemma ReplyGrows(data: word, got: seq<bool>, n: nat, miso: bool)
    requires n < 8 && n <= |got| && Latest(data, n) == Latest(got, n)
    ensures Latest(UserData(data[25..] + [miso]), n + 1) == Latest(got + [miso], n + 1)
    ensures UserData(data[25..] + [miso])[..24] == Zeros(19) + [true] + Zeros(4)
  {
    assert Latest(UserData(data[25..] + [miso]), n + 1) == Latest(data, n) + [miso];
    assert Latest(got + [miso], n + 1) == Latest(got, n) + [miso];
  }

  lemma ReplyComplete(data: word, got: seq<bool>, miso: bool)
    requires 7 <= |got| && Latest(data, 7) == Latest(got, 7)
    ensures UserData(data[25..] + [miso]) == UserData(Latest(got + [miso], 8))
  {
    ReplyGrows(data, got, 7, miso);
    var u := UserData(data[25..] + [miso]);
    assert u[24..] == data[25..] + [miso];
  }

  lemma ByteComplete(sent: seq<bool>, bytes: seq<byte>, last: bool)
    requires |bytes| > 0
    requires var bits := BitsOf(bytes[|bytes| - 1], 8);
      sent == BytesBits(bytes[..|bytes| - 1]) + bits[..7] && last == bits[7]
    ensures sent + [last] == BytesBits(bytes) && |sent| >= 7
  {
    var bits := BitsOf(bytes[|bytes| - 1], 8);
    SentBit(BytesBits(bytes[..|bytes| - 1]), bits, 7);
    assert bits[..8] == bits;
  }

  /** With the last bit the byte is complete on both sides. */
  lemma ByteEnds(r: Regs, r': Regs, w: Wire, w': Wire, bytes: seq<byte>, miso: bool)
    requires |bytes| > 0 && r.delay == 1 && ByteAt(r, w, bytes[..|bytes| - 1], bytes[|bytes| - 1])
    requires ReplyMoved(r, r', w, w', miso)
    ensures w'.sent == BytesBits(bytes) && |w'.got| == |w'.sent| >= 8
    ensures r'.data == UserData(Latest(w'.got, 8))
  {
    PipeBit(r.pipe, 1, BitsOf(bytes[|bytes| - 1], 8));
    ByteComplete(w.sent, bytes, r.Mosi());
    ReplyComplete(r.data, w.got, miso);
  }

  lemma SendingStep(aw: nat, s: System, i: Input)
    requires Control(s.regs, s.lclsck) && Pending(s) && Legal(aw, s, i) && Owed(aw, s)
    requires |s.wire.sent| == |s.wire.got| && Sending(s)
    ensures Sending(Step(aw, s, i))
  {
    var s' := Step(aw, s, i);
    UserMoves(aw, s, i);
    if s'.regs.user && s'.ledger.aligned {
      if s.regs.UserRequest(i) {
        ByteStarts(aw, s, i);
      } else if s.regs.delay > 0 {
        UserClock(aw, s, i);
        var bytes, miso := s.ledger.bytes, Miso(NextFlash(s), false);
        var front, last := bytes[..|bytes| - 1], bytes[|bytes| - 1];
        if s.regs.delay == 9 {
          ByteOpens(s.regs, s'.regs, s.wire, front, last);
        } else if s.regs.delay > 1 {
          ByteMoves(s.regs, s'.regs, s.wire, s'.wire, front, last, miso);
        } else {
          ByteEnds(s.regs, s'.regs, s.wire, s'.wire, bytes, miso);
        }
      }
    }
  }

  lemma RepliedStep(aw: nat, s: System, i: Input)
    requires Control(s.regs, s.lclsck) && Pending(s) && Legal(aw, s, i) && Owed(aw, s)
    requires Sending(s)
    ensures Replied(Step(aw, s, i))
  {
    var s' := Step(aw, s, i);
    AckMoves(aw, s, i);
    if s'.regs.ack && |s'.ledger.queue| > 0 && s'.ledger.queue[0].Transfer? && s'.ledger.aligned {
      UserClock(aw, s, i);
      ByteEnds(s.regs, s'.regs, s.wire, s'.wire, s.ledger.bytes, Miso(NextFlash(s), false));
    }
  }
}
