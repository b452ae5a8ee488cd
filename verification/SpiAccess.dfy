/** The accesses of a host that waits for each answer: what the controller makes of a
    configuration byte, of giving the chip back and of a configuration read, on a flash that
    may be busy. */
module SpiAccess {
  import opened Bits
  import opened FlashDevice
  import opened FlashRead
  import opened SpiXpress
  import opened SpiSystem
  import opened SpiRuns
  import opened SpiTiming
  import opened SpiBurst

  /** Words are addressed by 22 bits, all of the flash. */
  const AW: nat := 22

  function ConfigAccess(we: bool, v: nat): Input {
    Input(false, true, false, true, we, 0, v)
  }

  /** At the end of a byte, or beyond what is modelled. */
  predicate AtByte(f: Flash) {
    f.state.Lost? || Whole(f)
  }

  /** Nothing in flight: all has been answered, in configuration mode or with the chip let go. */
  ghost predicate Done(s: System)
  {
    && SpiRuns.Invariant(AW, s) && s.regs.delay == 0 && s.ledger.hold.Free?
    && if s.regs.user then s.ledger.aligned && AtByte(s.flash) && s.regs.data == UserData(s.regs.data[24..])
       else Rested(s.flash)
  }

  ghost predicate Between(s: System)
  {
    Done(s) && !s.regs.ack
  }

  // ---- Time ---------------------------------------------------------------------------------------

  lemma {:induction false} RestedTicks(f: Flash, n: nat)
    requires Rested(f)
    ensures Rested(Ticks(f, n)) && Deselect(Ticks(f, n)) == Ticks(f, n)
  {
    hide Rested, Tick, Deselect;
    if n == 0 {
    } else {
      RestedTicks(f, n - 1);
      RestedStays(Ticks(f, n - 1));
    }
    RestedStays(Ticks(f, n));
  }

  lemma AtByteTicks(f: Flash, n: nat)
    requires AtByte(f)
    ensures AtByte(Ticks(f, n))
  {
    TicksKeepBits(f, n);
  }

  /** One clock between accesses is two calls of the simulator and nothing more. */
  lemma RestClock(s: System)
    requires Done(s)
    ensures NextFlash(s) == Ticks(s.flash, 2)
  {
    hide Tick, Deselect, SimTick, Commanding, Fetching, Fetched, Replied, Owed, Pending, Whole, Rested;
    var f := s.flash;
    TickTwice(f);
    if s.regs.user {
      SelectedTick(f, s.lclsck, s.regs.Mosi());
    } else {
      SettlesTimed(f, s.lclsck, s.regs.Mosi());
      RestedTicks(f, 1);
    }
  }

  lemma PauseRegisters(s: System, cyc: bool)
    requires Done(s)
    ensures Legal(AW, s, Pause(cyc))
    ensures var t := Step(AW, s, Pause(cyc));
      && t.regs.delay == 0 && !t.regs.ack && t.ledger.hold.Free? && t.regs.user == s.regs.user
      && t.regs.data == s.regs.data && (t.regs.user ==> t.ledger.aligned)
  {
    hide Commanding, Fetching, Fetched, Replied, Pending, OnWire, NextFlash, NextWire, NextPipe, Owed, Whole, Rested;
  }

  lemma PauseStep(s: System, cyc: bool)
    requires Done(s)
    ensures Legal(AW, s, Pause(cyc))
    ensures var t := Step(AW, s, Pause(cyc));
      && Between(t) && t.flash == Ticks(s.flash, 2) && t.regs.user == s.regs.user
      && t.regs.data == s.regs.data
  {
    PauseRegisters(s, cyc);
    RestClock(s);
    InvariantStep(AW, s, Pause(cyc));
    hide SpiRuns.Invariant, Legal, Next, NextFlash, NextWire, NextLedger, Whole, Rested;
    if s.regs.user {
      AtByteTicks(s.flash, 2);
    } else {
      RestedTicks(s.flash, 2);
    }
  }

  // ---- A byte ---------------------------------------------------------------------------------------

  /** Byte `b` on its way to a flash that was at `base`. */
  ghost predicate Carrying(s: System, base: Flash, b: byte)
  {
    && Control(s.regs, s.lclsck) && Pending(s) && Owed(AW, s)
    && OnTime(s) && |s.wire.sent| == |s.wire.got| && Sending(s) && Replied(s)
    && s.regs.user && s.ledger.aligned && s.ledger.hold.Free?
    && s.wire.base == base && s.ledger.bytes == [b]
  }

  lemma CarryingMoves(s: System, base: Flash, b: byte)
    requires Carrying(s, base, b) && s.regs.delay > 0
    ensures Legal(AW, s, Pause(true))
    ensures var t := Step(AW, s, Pause(true));
      && t.regs.user && t.ledger.aligned && t.ledger.hold.Free? && t.wire.base == base && t.ledger.bytes == [b]
      && |t.wire.sent| == |t.wire.got| && t.regs.delay == s.regs.delay - 1
      && (s.regs.delay == 1 ==> t.regs.ack && t.ledger.queue == [Transfer(b)])
  {
    hide OnTime, Replied, ByteAt, NextFlash, NextPipe, NextData;
  }

  lemma CarryingStep(s: System, base: Flash, b: byte)
    requires Carrying(s, base, b) && s.regs.delay > 0
    ensures Legal(AW, s, Pause(true))
    ensures var t := Step(AW, s, Pause(true));
      && Carrying(t, base, b) && t.regs.delay == s.regs.delay - 1
      && (s.regs.delay == 1 ==> t.regs.ack && t.ledger.queue == [Transfer(b)])
  {
    var i := Pause(true);
    CarryingMoves(s, base, b);
    hide Step, Legal, Control, Pending, Owed, OnTime, Sending, Replied;
    ControlStep(AW, s, i);
    PendingStep(AW, s, i);
    OwedStep(AW, s, i);
    OnTimeStep(AW, s, i);
    SendingStep(AW, s, i);
    RepliedStep(AW, s, i);
  }

  /** The same system, but for where its log of the wire begins. */
  predicate Alike(s: System, t: System) {
    && s.regs == t.regs && s.flash == t.flash && s.lclsck == t.lclsck
    && s.ledger == t.ledger.(bytes := s.ledger.bytes)
  }

  function Rebased(s: System): System {
    s.(wire := Wire(s.flash, [], []), ledger := s.ledger.(bytes := []))
  }

  lemma AlikeStep(s: System, t: System, i: Input)
    requires Alike(s, t)
    ensures Legal(AW, s, i) <==> Legal(AW, t, i)
    ensures Alike(Step(AW, s, i), Step(AW, t, i))
  {
    hide Next;
  }

  lemma {:induction false} Carries(s: System, t: System, base: Flash, b: byte, n: nat)
    requires SpiRuns.Invariant(AW, s) && Alike(s, t) && Carrying(t, base, b) && n <= t.regs.delay
    ensures LegalRun(AW, s, Idles(n))
    ensures var u, w := Run(AW, s, Idles(n)), Run(AW, t, Idles(n));
      && SpiRuns.Invariant(AW, u) && Alike(u, w) && Carrying(w, base, b) && w.regs.delay == t.regs.delay - n
      && (0 < n == t.regs.delay ==> w.regs.ack && w.ledger.queue == [Transfer(b)])
  {
    hide SpiRuns.Invariant, Step, Legal, Carrying, Alike;
    if n == 0 {
    } else {
      Carries(s, t, base, b, n - 1);
      assert Idles(n)[..n - 1] == Idles(n - 1);
      var u, w := Run(AW, s, Idles(n - 1)), Run(AW, t, Idles(n - 1));
      CarryingStep(w, base, b);
      AlikeStep(u, w, Pause(true));
      InvariantStep(AW, u, Pause(true));
    }
  }

  /** What the byte meets, and what comes back. */
  lemma CarryingEnds(s: System, base: Flash, b: byte) returns (before: nat, after: nat)
    requires Carrying(s, base, b) && s.regs.delay == 0 && s.regs.ack && s.ledger.queue == [Transfer(b)] && AtByte(base)
    ensures before > 0 && after > 0 && s.flash == Ticks(PushByte(Ticks(base, before), b), after)
    ensures s.regs.data == UserData(s.regs.data[24..])
    ensures !base.state.Lost? && !base.state.SlowRead? ==> s.regs.data == UserData(base.oreg[24..])
  {
    hide Control, Pending, Owed, PushByte, Timeline, Levels, Tick, BitsOf, Whole;
    var waits :| Fits(s, waits);
    OneByte(b);
    ByteTimeline(base, b, waits);
    SumPositive(waits[..8], 0);
    before, after := Sum(waits[..8]), waits[8];
    assert Latest(s.wire.got, 8) == s.wire.got;
  }

  lemma OneByte(b: byte)
    ensures BytesBits([b]) == BitsOf(b, 8)
  {
    assert [b][..0] == [];
    assert BytesBits([]) == [];
  }

  // ---- Its start --------------------------------------------------------------------------------------

  /** The system as the byte sees it. */
  function Seen(s: System): System {
    if s.regs.user then Rebased(s) else s
  }

  lemma SeenHolds(s: System)
    requires Between(s)
    ensures var t := Seen(s);
      && Alike(s, t) && Control(t.regs, t.lclsck) && Pending(t) && Owed(AW, t) && |t.wire.sent| == |t.wire.got|
      && Sending(t) && Replied(t)
  {
    hide Commanding, Fetching, Fetched, ByteAt, Whole, Rested, BitsOf;
    assert BytesBits([]) == [];
  }

  lemma StartMoves(s: System, v: nat)
    requires Between(s) && v / 256 % 2 == 0
    ensures Legal(AW, Seen(s), ConfigAccess(true, v))
    ensures var t := Step(AW, Seen(s), ConfigAccess(true, v));
      && t.regs.user && t.ledger.aligned && t.ledger.hold.Free? && t.ledger.bytes == [v % 256] && t.regs.delay == 9
      && |t.wire.sent| == |t.wire.got| && t.wire.base == (if s.regs.user then s.flash else NextFlash(s))
  {
    hide Commanding, Fetching, Fetched, ByteAt, Whole, Rested, BitsOf, Replied, NextFlash, NextPipe, NextData, Owed, Pending;
  }

  lemma StartOnTime(s: System, i: Input)
    requires Between(s)
    ensures OnTime(Step(AW, Seen(s), i))
  {
    hide Timeline, Levels, SimTick, Next, NextLedger, Pending, Owed, Commanding, Fetching, Fetched, Sending, Replied,
         Whole, Rested;
    if s.regs.user {
      Starting(s.flash);
      assert Fits(Rebased(s), [0]);
      OnTimeStep(AW, Rebased(s), i);
    } else {
      TickKeepsClockHigh(s.flash, true, s.lclsck, s.regs.Mosi());
      Starting(NextFlash(s));
      assert Fits(Step(AW, s, i), [0]);
    }
  }

  lemma StartsByte(s: System, v: nat)
    requires Between(s) && v / 256 % 2 == 0
    ensures Legal(AW, s, ConfigAccess(true, v))
    ensures var i := ConfigAccess(true, v); var u, t := Step(AW, s, i), Step(AW, Seen(s), i);
      && SpiRuns.Invariant(AW, u) && Alike(u, t) && t.regs.delay == 9
      && Carrying(t, if s.regs.user then s.flash else NextFlash(s), v % 256)
  {
    var i, t := ConfigAccess(true, v), Seen(s);
    SeenHolds(s);
    StartMoves(s, v);
    StartOnTime(s, i);
    AlikeStep(s, t, i);
    InvariantStep(AW, s, i);
    hide Step, Seen, Legal, Control, Pending, Owed, OnTime, Sending, Replied, Alike, NextFlash;
    ControlStep(AW, t, i);
    PendingStep(AW, t, i);
    OwedStep(AW, t, i);
    SendingStep(AW, t, i);
    RepliedStep(AW, t, i);
  }

  lemma PushKeepsByte(f: Flash, b: byte, n: nat, m: nat)
    requires AtByte(f)
    ensures AtByte(Ticks(PushByte(Ticks(f, n), b), m))
  {
    hide Dispatch, Tick;
    TicksKeepBits(f, n);
    DispatchCounts(TakeIn(Ticks(f, n), BitsOf(b, 8)));
    TicksKeepBits(PushByte(Ticks(f, n), b), m);
  }

  function ByteAccess(v: nat): seq<Input> {
    [ConfigAccess(true, v)] + Idles(9)
  }

  /** The flash as the byte finds it. */
  function BaseOf(s: System): Flash {
    if s.regs.user then s.flash else NextFlash(s)
  }

  lemma BaseIs(s: System)
    requires Between(s)
    ensures BaseOf(s) == Ticks(s.flash, if s.regs.user then 0 else 2)
    ensures AtByte(BaseOf(s)) && SameBits(s.flash, BaseOf(s))
  {
    RestClock(s);
    RestedWhole(s);
    hide SpiRuns.Invariant, Rested, NextFlash, Tick, Whole;
    AtByteTicks(s.flash, 2);
    TicksKeepBits(s.flash, 2);
  }

  lemma ByteRun(s: System, v: nat) returns (w: System)
    requires Between(s) && v / 256 % 2 == 0
    ensures LegalRun(AW, s, ByteAccess(v))
    ensures var t := Run(AW, s, ByteAccess(v));
      && SpiRuns.Invariant(AW, t) && Alike(t, w) && Carrying(w, BaseOf(s), v % 256)
      && w.regs.delay == 0 && w.regs.ack && w.ledger.queue == [Transfer(v % 256)]
  {
    var i := ConfigAccess(true, v);
    StartsByte(s, v);
    hide SpiRuns.Invariant, Step, Legal, Run, LegalRun, Carrying, NextFlash, Between, Seen, Alike;
    var u, t := Step(AW, s, i), Step(AW, Seen(s), i);
    Carries(u, t, BaseOf(s), v % 256, 9);
    RunOne(AW, s, i);
    RunAppend(AW, s, [i], Idles(9));
    w := Run(AW, t, Idles(9));
  }

  /** Writing a byte: ten clocks later it has been acknowledged, the flash has received it, busy
      or not, and the port holds what the flash had ready. */
  lemma WritesByte(s: System, v: nat) returns (before: nat, after: nat)
    requires Between(s) && v / 256 % 2 == 0
    ensures LegalRun(AW, s, ByteAccess(v))
    ensures before > 0 && after > 0
    ensures var t := Run(AW, s, ByteAccess(v));
      && Done(t) && t.regs.ack && t.ledger.queue == [Transfer(v % 256)] && t.regs.user
      && t.flash == Ticks(PushByte(Ticks(s.flash, before), v % 256), after)
      && (!s.flash.state.Lost? && !s.flash.state.SlowRead? ==> t.regs.data == UserData(s.flash.oreg[24..]))
  {
    hide SpiRuns.Invariant, Run, LegalRun, Carrying, PushByte, Tick, Rested, AtByte, BaseOf, UserData, Between;
    var w := ByteRun(s, v);
    BaseIs(s);
    CarryingKnown(w, BaseOf(s), v % 256);
    before, after := CarryingEnds(w, BaseOf(s), v % 256);
    PushKeepsByte(BaseOf(s), v % 256, before, after);
    var lead := if s.regs.user then 0 else 2;
    TicksAdd(s.flash, lead, before);
    before := lead + before;
  }

  /** And one idle clock. */
  lemma Sends(s: System, v: nat, cyc: bool) returns (before: nat, after: nat)
    requires Between(s) && v / 256 % 2 == 0
    ensures before > 0 && after > 0
    ensures var t := Step(AW, Run(AW, s, ByteAccess(v)), Pause(cyc));
      && Between(t) && t.regs.user && t.flash == Ticks(PushByte(Ticks(s.flash, before), v % 256), after)
      && (!s.flash.state.Lost? && !s.flash.state.SlowRead? ==> t.regs.data[24..] == s.flash.oreg[24..])
  {
    hide Between, Done, Step, Run, LegalRun, PushByte, Ticks, UserData, ByteAccess;
    before, after := WritesByte(s, v);
    LowOfUserData(s.flash.oreg[24..]);
    after := Pauses(Run(AW, s, ByteAccess(v)), cyc, PushByte(Ticks(s.flash, before), v % 256), after);
  }

  lemma Pauses(t: System, cyc: bool, f: Flash, n: nat) returns (m: nat)
    requires Done(t) && t.flash == Ticks(f, n)
    ensures var u := Step(AW, t, Pause(cyc));
      Between(u) && u.flash == Ticks(f, m) && u.regs.user == t.regs.user && u.regs.data == t.regs.data && m == n + 2
  {
    hide Between, Done, Step, Legal, Ticks;
    PauseStep(t, cyc);
    TicksAdd(f, n, 2);
    m := n + 2;
  }

  lemma LowOfUserData(low: seq<bool>)
    requires |low| == 8
    ensures UserData(low)[24..] == low
  {
  }

  lemma CarryingKnown(s: System, base: Flash, b: byte)
    requires Carrying(s, base, b)
    ensures s.regs.user && s.ledger.aligned && s.ledger.hold.Free?
  {
  }

  lemma RestedWhole(s: System)
    requires Done(s)
    ensures AtByte(s.flash)
  {
  }

  // ---- Giving the chip back, and reading the port -------------------------------------------------------

  function ReleaseAccess(v: nat): seq<Input> {
    [ConfigAccess(true, v)] + [Pause(true)]
  }

  lemma ReleaseMoves(s: System, v: nat)
    requires Between(s) && v / 256 % 2 == 1
    ensures Legal(AW, s, ConfigAccess(true, v))
    ensures var t := Step(AW, s, ConfigAccess(true, v));
      && Legal(AW, t, Pause(true)) && t.regs.csn && t.regs.delay == 0 && t.regs.ack && t.ledger.queue == [Immediate]
      && var u := Step(AW, t, Pause(true));
      && !u.regs.user && u.regs.delay == 0 && !u.regs.ack && u.ledger.hold.Free? && u.regs.data == s.regs.data
  {
    hide Commanding, Fetching, Fetched, Sending, Whole, Rested, BitsOf, Replied, NextFlash, NextPipe, Pending, NextWire;
  }

  /** Writing 0x100 lets go of the command, busy or not. */
  lemma Releases(s: System, v: nat)
    requires Between(s) && v / 256 % 2 == 1
    ensures LegalRun(AW, s, ReleaseAccess(v))
    ensures var t := Run(AW, s, ReleaseAccess(v));
      && Between(t) && !t.regs.user && t.regs.data == s.regs.data
      && t.flash == Ticks(Deselect(Ticks(s.flash, 3)), 1)
  {
    var i := ConfigAccess(true, v);
    ReleaseMoves(s, v);
    RestClock(s);
    InvariantStep(AW, s, i);
    var t := Step(AW, s, i);
    InvariantStep(AW, t, Pause(true));
    hide SpiRuns.Invariant, Deselect, SimTick, Tick, Next, NextWire, NextLedger, Legal, Rested;
    RunOne(AW, s, i);
    RunOne(AW, t, Pause(true));
    RunAppend(AW, s, [i], [Pause(true)]);
    SettlesTimed(t.flash, t.lclsck, t.regs.Mosi());
    ThreeTicks(s.flash, Deselect(Tick(t.flash)));
    DeselectRests(Tick(t.flash));
    RestedTicks(Deselect(Tick(t.flash)), 1);
  }

  /** Reading the port changes nothing, and its answer comes on the next clock. */
  lemma ReadsPort(s: System)
    requires Between(s) && s.regs.user
    ensures Legal(AW, s, ConfigAccess(false, 0))
    ensures var t := Step(AW, s, ConfigAccess(false, 0));
      && Done(t) && t.regs.ack && t.ledger.queue == [Immediate] && t.regs.user
      && t.regs.data == s.regs.data && t.flash == Ticks(s.flash, 2)
  {
    ReadMoves(s);
    RestClock(s);
    InvariantStep(AW, s, ConfigAccess(false, 0));
    hide SpiRuns.Invariant, Legal, Next, NextFlash, NextWire, NextLedger, Whole, Rested;
    AtByteTicks(s.flash, 2);
  }

  /** And one idle clock. */
  lemma Reads(s: System, cyc: bool)
    requires Between(s) && s.regs.user
    ensures var t := Step(AW, s, ConfigAccess(false, 0)); var u := Step(AW, t, Pause(cyc));
      && Val(t.regs.data) == 0x1000 + ByteOf(s.regs.data[24..])
      && Between(u) && u.regs.user && u.regs.data == s.regs.data && u.flash == Ticks(s.flash, 4)
  {
    ReadsPort(s);
    PortValue(s);
    hide Between, Done, Step, Legal, Ticks;
    PauseStep(Step(AW, s, ConfigAccess(false, 0)), cyc);
    TicksAdd(s.flash, 2, 2);
  }

  lemma PortValue(s: System)
    requires Done(s) && s.regs.user
    ensures Val(s.regs.data) == 0x1000 + ByteOf(s.regs.data[24..])
  {
    hide SpiRuns.Invariant, Whole;
    UserValue(s.regs.data);
  }

  /** The port's upper bits. */
  lemma UserValue(data: word)
    requires data == UserData(data[24..])
    ensures Val(data) == 0x1000 + ByteOf(data[24..])
  {
    var top := Zeros(19) + [true] + Zeros(4);
    ValAppend(top, data[24..]);
    ValAppend(Zeros(19) + [true], Zeros(4));
    ValAppend(Zeros(19), [true]);
    ValZeros(19);
    ValZeros(4);
    SmallPowers();
    JustOne();
    ByteValue(data[24..]);
    assert Val(top) == 16;
  }

  lemma ByteValue(bits: seq<bool>)
    requires |bits| == 8
    ensures ByteOf(bits) == Val(bits)
  {
  }

  lemma JustOne()
    ensures Val([true]) == 1
  {
    assert Val([]) == 0 && [true][..0] == [];
  }

  lemma ReadMoves(s: System)
    requires Between(s) && s.regs.user
    ensures Legal(AW, s, ConfigAccess(false, 0))
    ensures var t := Step(AW, s, ConfigAccess(false, 0));
      && t.regs.delay == 0 && t.regs.ack && t.ledger.queue == [Immediate] && t.ledger.hold.Free? && t.regs.user
      && t.ledger.aligned && t.regs.data == UserData(s.regs.data[24..])
  {
    hide Commanding, Fetching, Fetched, Sending, Whole, Rested, BitsOf, Replied, NextFlash, NextPipe, Pending, NextWire;
  }

  /** After a burst of reads, one clock of chip select high. */
  lemma Closes(s: System)
    requires SpiRuns.Invariant(AW, s) && s.regs.delay == 0 && s.ledger.hold.Free? && !s.regs.user && !s.flash.Busy()
    ensures Legal(AW, s, Pause(true))
    ensures var t := Step(AW, s, Pause(true)); Between(t) && !t.regs.user && t.flash == Tick(Deselect(s.flash))
  {
    CloseMoves(s);
    InvariantStep(AW, s, Pause(true));
    hide SpiRuns.Invariant, Next, NextWire, NextLedger, Legal, Rested, Deselect, Tick, SimTick;
    Settles(s.flash, s.lclsck, s.regs.Mosi());
    DeselectRests(s.flash);
    RestedStays(Deselect(s.flash));
  }

  lemma CloseMoves(s: System)
    requires SpiRuns.Invariant(AW, s) && s.regs.delay == 0 && s.ledger.hold.Free? && !s.regs.user
    ensures Legal(AW, s, Pause(true)) && s.regs.csn
    ensures var t := Step(AW, s, Pause(true));
      !t.regs.user && t.regs.delay == 0 && !t.regs.ack && t.ledger.hold.Free?
  {
    hide Commanding, Fetching, Fetched, Sending, Replied, NextFlash, NextPipe, NextData, Pending, NextWire;
  }

  /** The last word of a burst, and the clock after it. */
  lemma CloseWord(s: System, base: Flash, addr: nat, line: nat) returns (sent: seq<bool>, first: nat)
    requires Bursting(AW, s, base, addr, line) && 4 * line + 3 < SIZE && |base.mem| == SIZE
    ensures first <= line && |sent| == 32 * (line - first) + 64 && sent[..32] == ReadCommand(first)
    ensures var t := Run(AW, s, Idles(s.regs.delay)); var u := Step(AW, t, Pause(true));
      && t.regs.data == WordAt(base.mem, line)
      && Between(u) && !u.regs.user && u.flash == Tick(Deselect(Shifts(base, sent)))
  {
    hide SpiRuns.Invariant, Step, Legal, Run, LegalRun, WordAt, Between, Tick, Deselect;
    Ends(AW, s, base, addr, line);
    var t := Run(AW, s, Idles(s.regs.delay));
    WordArrives(AW, t, base, addr, line);
    BurstWas(AW, t, addr, line);
    sent, first := t.wire.sent, t.ledger.first;
    ShiftsKeep(base, sent);
    Closes(t);
  }

  // ---- From power-on ------------------------------------------------------------------------------------

  lemma Begins(s: System)
    requires Init(s)
    ensures Legal(AW, s, Pause(false)) && Between(Step(AW, s, Pause(false))) && !Step(AW, s, Pause(false)).regs.user
    ensures Step(AW, s, Pause(false)).flash == Ticks(Deselect(Ticks(s.flash, 1)), 1)
  {
    InitInvariant(AW, s);
    InvariantStep(AW, s, Pause(false));
    hide SpiRuns.Invariant, Deselect, SimTick, Tick, Rested, NextWire;
    SettlesTimed(s.flash, s.lclsck, s.regs.Mosi());
    TickTwice(s.flash);
    TickTwice(Deselect(Tick(s.flash)));
    DeselectRests(Tick(s.flash));
    RestedTicks(Deselect(Tick(s.flash)), 1);
  }
}
