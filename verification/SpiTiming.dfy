/** The configuration port on a flash that may be busy: the same bytes arrive, with the write
    timer running on between their bits. */
module SpiTiming {
  import opened Bits
  import opened FlashDevice
  import opened FlashProgram
  import opened SpiXpress
  import opened SpiSystem
  import opened SpiRuns

  // ---- Falling edges with time between them -----------------------------------------------------

  /** The device after the falling edges of `sent`, `waits[k]` calls passing before edge k and
      the last of them after the last edge. */
  function Timeline(base: Flash, sent: seq<bool>, waits: seq<nat>): Flash
    requires |waits| == |sent| + 1
    decreases |sent|, 1
  {
    var n := |sent|;
    if n == 0 then Ticks(base, waits[0]) else Ticks(LastEdge(base, sent, waits[..n]), waits[n])
  }

  /** The device on the last of them. */
  function LastEdge(base: Flash, sent: seq<bool>, waits: seq<nat>): Flash
    requires |waits| == |sent| > 0
    decreases |sent|, 0
  {
    FallingEdge(Timeline(base, sent[..|sent| - 1], waits), sent[|sent| - 1])
  }

  /** MISO after each of them. */
  function Levels(base: Flash, sent: seq<bool>, waits: seq<nat>): (got: seq<bool>)
    requires |waits| == |sent| + 1
    ensures |got| == |sent|
  {
    var n := |sent|;
    if n == 0 then [] else Levels(base, sent[..n - 1], waits[..n]) + [Miso(LastEdge(base, sent, waits[..n]), false)]
  }

  lemma {:induction false} TicksAdd(f: Flash, a: nat, b: nat)
    ensures Ticks(Ticks(f, a), b) == Ticks(f, a + b)
  {
    hide Tick;
    if b == 0 {
    } else {
      TicksAdd(f, a, b - 1);
    }
  }

  /** Time touches the timer and its two flags, nothing a bit could meet before its byte is
      complete. */
  predicate SameBits(f: Flash, g: Flash) {
    g.state == f.state && g.ireg == f.ireg && g.oreg == f.oreg && g.count == f.count && g.lastSck == f.lastSck
  }

  lemma {:induction false} TicksKeepBits(f: Flash, n: nat)
    ensures SameBits(f, Ticks(f, n))
  {
    if n == 0 {
    } else {
      TicksKeepBits(f, n - 1);
    }
  }

  lemma TickTakeIn(f: Flash, bits: seq<bool>)
    requires |bits| <= 8
    ensures Tick(TakeIn(f, bits)) == TakeIn(Tick(f), bits)
  {
  }

  lemma {:induction false} TicksTakeIn(f: Flash, bits: seq<bool>, n: nat)
    requires |bits| <= 8
    ensures Ticks(TakeIn(f, bits), n) == TakeIn(Ticks(f, n), bits)
  {
    hide Tick, TakeIn;
    if n == 0 {
    } else {
      TicksTakeIn(f, bits, n - 1);
      TickTakeIn(Ticks(f, n - 1), bits);
    }
  }

  function Sum(waits: seq<nat>): nat {
    if |waits| == 0 then 0 else Sum(waits[..|waits| - 1]) + waits[|waits| - 1]
  }

  lemma {:induction false} SumPositive(waits: seq<nat>, k: nat)
    requires k < |waits| && waits[k] > 0
    ensures Sum(waits) > 0
  {
    if k < |waits| - 1 {
      SumPositive(waits[..|waits| - 1], k);
    }
  }

  // ---- The system ---------------------------------------------------------------------------------

  /** Some time passes before every edge and after the last. */
  predicate Timely(waits: seq<nat>) {
    |waits| > 1 ==> forall k :: 0 <= k < |waits| ==> waits[k] > 0
  }

  ghost predicate Fits(s: System, waits: seq<nat>)
  {
    var w := s.wire;
    && |waits| == |w.sent| + 1 && Timely(waits)
    && s.flash == Timeline(w.base, w.sent, waits) && w.got == Levels(w.base, w.sent, waits)
  }

  /** Busy or not, the flash is where the bits and the time took it. */
  ghost predicate OnTime(s: System)
  {
    s.flash.lastSck && exists waits :: Fits(s, waits)
  }

  lemma SelectedTick(f: Flash, lclsck: bool, mosi: bool)
    requires f.lastSck
    ensures SimTick(f, false, lclsck, mosi) == if lclsck then Tick(FallingEdge(Tick(f), mosi)) else Tick(Tick(f))
  {
    EdgeKeeps(Tick(f), mosi);
  }

  lemma MisoKept(f: Flash)
    ensures Miso(Tick(f), false) == Miso(f, false)
  {
  }

  lemma LongerWait(base: Flash, sent: seq<bool>, waits: seq<nat>, more: nat)
    requires |waits| == |sent| + 1
    ensures var longer := waits[|sent| := waits[|sent|] + more];
      && Timeline(base, sent, longer) == Ticks(Timeline(base, sent, waits), more)
      && Levels(base, sent, longer) == Levels(base, sent, waits)
  {
    hide Tick, LastEdge, Miso;
    var n := |sent|;
    var longer := waits[n := waits[n] + more];
    if n == 0 {
      TicksAdd(base, waits[0], more);
    } else {
      assert longer[..n] == waits[..n];
      TicksAdd(LastEdge(base, sent, waits[..n]), waits[n], more);
    }
  }

  lemma OneMoreEdge(base: Flash, sent: seq<bool>, waits: seq<nat>, bit: bool, after: nat)
    requires |waits| == |sent| + 1
    ensures var f := FallingEdge(Timeline(base, sent, waits), bit);
      && Timeline(base, sent + [bit], waits + [after]) == Ticks(f, after)
      && Levels(base, sent + [bit], waits + [after]) == Levels(base, sent, waits) + [Miso(f, false)]
  {
    assert (sent + [bit])[..|sent|] == sent && (waits + [after])[..|waits|] == waits;
  }

  lemma Starting(f: Flash)
    ensures Timeline(f, [], [0]) == f && Levels(f, [], [0]) == []
  {
  }

  lemma TickTwice(f: Flash)
    ensures Ticks(f, 1) == Tick(f) && Ticks(f, 2) == Tick(Tick(f))
  {
  }

  lemma OnTimeEdge(aw: nat, s: System, i: Input, waits: seq<nat>)
    requires s.flash.lastSck && Fits(s, waits) && !s.regs.csn && s.lclsck
    ensures OnTime(Step(aw, s, i))
  {
    hide Tick, FallingEdge, Timeline, Levels, SimTick, Ticks, Next, NextLedger, Miso;
    var f, mosi, w, n := s.flash, s.regs.Mosi(), s.wire, |s.wire.sent|;
    var longer := waits[n := waits[n] + 1];
    LongerWait(w.base, w.sent, waits, 1);
    OneMoreEdge(w.base, w.sent, longer, mosi, 1);
    TickTwice(f);
    TickTwice(FallingEdge(Tick(f), mosi));
    MisoKept(FallingEdge(Tick(f), mosi));
    SelectedTick(f, true, mosi);
    TickKeepsClockHigh(f, false, true, mosi);
    assert Fits(Step(aw, s, i), longer + [1]);
  }

  lemma OnTimeWait(aw: nat, s: System, i: Input, waits: seq<nat>)
    requires s.flash.lastSck && Fits(s, waits) && !s.regs.csn && !s.lclsck
    ensures OnTime(Step(aw, s, i))
  {
    hide Tick, FallingEdge, Timeline, Levels, SimTick, Ticks, Next, NextLedger, Miso;
    var f, mosi, w, n := s.flash, s.regs.Mosi(), s.wire, |s.wire.sent|;
    LongerWait(w.base, w.sent, waits, 2);
    TickTwice(f);
    SelectedTick(f, false, mosi);
    TickKeepsClockHigh(f, false, false, mosi);
    assert Fits(Step(aw, s, i), waits[n := waits[n] + 2]);
  }

  lemma OnTimeStep(aw: nat, s: System, i: Input)
    requires OnTime(s)
    ensures OnTime(Step(aw, s, i))
  {
    hide Timeline, Levels, SimTick, Next, NextLedger;
    if s.regs.csn {
      var f := NextFlash(s);
      TickKeepsClockHigh(s.flash, true, s.lclsck, s.regs.Mosi());
      Starting(f);
      assert Fits(Step(aw, s, i), [0]);
    } else {
      var waits :| Fits(s, waits);
      if s.lclsck {
        OnTimeEdge(aw, s, i, waits);
      } else {
        OnTimeWait(aw, s, i, waits);
      }
    }
  }

  lemma InitOnTime(s: System)
    requires Init(s)
    ensures OnTime(s)
  {
    Starting(s.flash);
    assert Fits(s, [0]);
  }

  lemma {:induction false} RunOnTime(aw: nat, s: System, inputs: seq<Input>)
    requires Init(s)
    ensures OnTime(Run(aw, s, inputs))
  {
    hide Step, OnTime, Init;
    if |inputs| == 0 {
      InitOnTime(s);
    } else {
      RunOnTime(aw, s, inputs[..|inputs| - 1]);
      OnTimeStep(aw, Run(aw, s, inputs[..|inputs| - 1]), inputs[|inputs| - 1]);
    }
  }

  // ---- A byte at a time ---------------------------------------------------------------------------

  predicate Whole(g: Flash) {
    !g.state.Lost? && g.count % 8 == 0 && g.count < 0x1_0000_0000
  }

  /** In the middle of a byte. */
  lemma {:induction false} PartialTimeline(g: Flash, bits: seq<bool>, waits: seq<nat>)
    requires Whole(g) && |bits| < 8 && |waits| == |bits| + 1
    ensures Timeline(g, bits, waits) == TakeIn(Ticks(g, Sum(waits)), bits)
    ensures forall k :: 0 <= k < |bits| ==> Levels(g, bits, waits)[k] == g.oreg[24 + k]
  {
    hide Tick, FallingEdge, TakeIn, Miso;
    var n := |bits|;
    if n == 0 {
      assert waits[..0] == [];
      TicksKeepBits(g, waits[0]);
      NothingIn(Ticks(g, waits[0]));
    } else {
      var t := Ticks(g, Sum(waits[..n]));
      PartialTimeline(g, bits[..n - 1], waits[..n]);
      TicksKeepBits(g, Sum(waits[..n]));
      assert bits[..n - 1] + [bits[n - 1]] == bits;
      FallingMidByte(t, bits[..n - 1], bits[n - 1]);
      TicksTakeIn(t, bits, waits[n]);
      TicksAdd(g, Sum(waits[..n]), waits[n]);
      LevelIs(t, bits);
    }
  }

  lemma NothingIn(f: Flash)
    requires f.count < 0x1_0000_0000
    ensures TakeIn(f, []) == f
  {
    assert f.ireg[0..] + [] == f.ireg;
    assert f.oreg[0..] + Zeros(0) == f.oreg;
  }

  lemma LevelIs(f: Flash, bits: seq<bool>)
    requires 0 < |bits| <= 8
    ensures Miso(TakeIn(f, bits), false) == f.oreg[23 + |bits|]
  {
  }

  /** Eight edges, whatever time passes between them, push the byte: as of its last bit. */
  lemma ByteTimeline(g: Flash, b: byte, waits: seq<nat>)
    requires (g.state.Lost? || Whole(g)) && |waits| == 9
    ensures Timeline(g, BitsOf(b, 8), waits) == Ticks(PushByte(Ticks(g, Sum(waits[..8])), b), waits[8])
    ensures !g.state.Lost? && !g.state.SlowRead? ==> Levels(g, BitsOf(b, 8), waits) == g.oreg[24..]
  {
    hide Tick, FallingEdge, TakeIn, Miso, Dispatch, BitsOf;
    var bits := BitsOf(b, 8);
    if g.state.Lost? {
      LostTimeline(g, bits, waits);
      LostPush(g, b, Sum(waits[..8]), waits[8]);
    } else {
      var t := Ticks(g, Sum(waits[..8]));
      PartialTimeline(g, bits[..7], waits[..8]);
      TicksKeepBits(g, Sum(waits[..8]));
      LastBit(t, bits);
      if !g.state.SlowRead? {
        LastLevel(t, bits);
        assert waits[..8][..8] == waits[..8];
        forall k | 0 <= k < 8
          ensures Levels(g, bits, waits)[k] == g.oreg[24..][k]
        {
        }
      }
    }
  }

  lemma LastBit(t: Flash, bits: seq<bool>)
    requires Whole(t) && |bits| == 8
    ensures FallingEdge(TakeIn(t, bits[..7]), bits[7]) == Dispatch(TakeIn(t, bits))
  {
    hide Dispatch;
    TakeInStep(t, bits[..7], bits[7]);
    assert bits[..7] + [bits[7]] == bits;
  }

  lemma LastLevel(t: Flash, bits: seq<bool>)
    requires Whole(t) && |bits| == 8 && !t.state.SlowRead?
    ensures Miso(Dispatch(TakeIn(t, bits)), false) == t.oreg[31]
  {
    hide Dispatch;
    OutputBitKept(TakeIn(t, bits));
  }

  lemma {:induction false} LostTimeline(g: Flash, bits: seq<bool>, waits: seq<nat>)
    requires g.state.Lost? && |waits| == |bits| + 1
    ensures Timeline(g, bits, waits) == Ticks(g, Sum(waits))
  {
    hide Tick, Dispatch;
    var n := |bits|;
    if n == 0 {
      assert waits[..0] == [];
    } else {
      LostTimeline(g, bits[..n - 1], waits[..n]);
      TicksKeepBits(g, Sum(waits[..n]));
      TicksAdd(g, Sum(waits[..n]), waits[n]);
    }
  }

  lemma LostPush(g: Flash, b: byte, n: nat, m: nat)
    requires g.state.Lost?
    ensures Ticks(PushByte(Ticks(g, n), b), m) == Ticks(g, n + m)
  {
    hide Tick, Dispatch;
    TicksKeepBits(g, n);
    TicksAdd(g, n, m);
  }

  lemma SplitWaits(waits: seq<nat>, n: nat, m: nat)
    requires 0 < m && n + m == |waits|
    ensures waits[..n + m - 1][..n] == waits[..n]
    ensures var rest := [0] + waits[n..];
      rest[m] == waits[n + m - 1] && rest[..m] == [0] + waits[..n + m - 1][n..]
  {
    assert waits[n..][..m - 1] == waits[..n + m - 1][n..];
  }

  /** Two stretches of a timeline. */
  lemma {:induction false} TimelineSplit(base: Flash, x: seq<bool>, y: seq<bool>, waits: seq<nat>)
    requires |waits| == |x| + |y| + 1
    ensures var n := |x|; var f, rest := Timeline(base, x, waits[..n + 1]), [0] + waits[n + 1..];
      && Timeline(base, x + y, waits) == Timeline(f, y, rest)
      && Levels(base, x + y, waits) == Levels(base, x, waits[..n + 1]) + Levels(f, y, rest)
  {
    hide FallingEdge, Miso, Tick;
    var n, m := |x|, |y|;
    var f, rest := Timeline(base, x, waits[..n + 1]), [0] + waits[n + 1..];
    if m == 0 {
      assert x + y == x && waits[..n + 1] == waits;
      assert Ticks(f, 0) == f;
    } else {
      TimelineSplit(base, x, y[..m - 1], waits[..n + m]);
      assert (x + y)[..n + m - 1] == x + y[..m - 1] && (x + y)[n + m - 1] == y[m - 1];
      SplitWaits(waits, n + 1, m);
    }
  }

  // ---- What reaches a flash that may be busy --------------------------------------------------------

  /** The bytes pushed one by one, with time before each takes effect and after. */
  function Pushes(f: Flash, bytes: seq<byte>, pauses: seq<(nat, nat)>): Flash
    requires |pauses| == |bytes|
  {
    var n := |bytes| - 1;
    if n < 0 then f
    else Ticks(PushByte(Ticks(Pushes(f, bytes[..n], pauses[..n]), pauses[n].0), bytes[n]), pauses[n].1)
  }

  predicate Positive(pauses: seq<(nat, nat)>) {
    forall k :: 0 <= k < |pauses| ==> pauses[k].0 > 0 && pauses[k].1 > 0
  }

  lemma TimedAligns(g: Flash, b: byte, n: nat, p: nat, q: nat)
    requires Aligned(g, n) && 8 * (n + 1) < 0x1_0000_0000
    ensures Aligned(Ticks(PushByte(Ticks(g, p), b), q), n + 1)
  {
    hide PushByte, Tick;
    TicksKeepBits(g, p);
    PushAligns(Ticks(g, p), b, n);
    TicksKeepBits(PushByte(Ticks(g, p), b), q);
  }

  lemma {:induction false} BytesTimeline(base: Flash, bytes: seq<byte>, waits: seq<nat>)
    returns (pauses: seq<(nat, nat)>)
    requires Aligned(base, 0) && 8 * |bytes| < 0x1_0000_0000 && |waits| == |BytesBits(bytes)| + 1
    requires Timely(waits)
    ensures |pauses| == |bytes| && Positive(pauses)
    ensures Timeline(base, BytesBits(bytes), waits) == Pushes(Ticks(base, waits[0]), bytes, pauses)
    ensures Aligned(Pushes(Ticks(base, waits[0]), bytes, pauses), |bytes|)
  {
    hide FallingEdge, PushByte, Tick, BitsOf, Levels;
    if |bytes| == 0 {
      pauses := [];
      TicksKeepBits(base, waits[0]);
    } else {
      var n := |bytes| - 1;
      var front, b := BytesBits(bytes[..n]), bytes[n];
      var first := waits[..|front| + 1];
      var rest := [0] + waits[|front| + 1..];
      pauses := BytesTimeline(base, bytes[..n], first);
      var g := Pushes(Ticks(base, waits[0]), bytes[..n], pauses);
      TimelineSplit(base, front, BitsOf(b, 8), waits);
      WholeCount(g, n);
      ByteTimeline(g, b, rest);
      SumPositive(rest[..8], 1);
      TimedAligns(g, b, n, Sum(rest[..8]), rest[8]);
      var pause := (Sum(rest[..8]), rest[8]);
      assert (pauses + [pause])[..n] == pauses;
      pauses := pauses + [pause];
    }
  }

  lemma WholeCount(g: Flash, n: nat)
    requires Aligned(g, n)
    ensures g.state.Lost? || Whole(g)
  {
  }

  /** Between configuration bytes, busy or not, the flash has received exactly the bytes written
      since it was selected, each at its own time. */
  lemma ConfigDeliversTimed(aw: nat, s: System) returns (lead: nat, pauses: seq<(nat, nat)>)
    requires SpiRuns.Invariant(aw, s) && OnTime(s) && 8 * |s.ledger.bytes| < 0x1_0000_0000
    requires s.regs.user && s.regs.delay == 0 && s.ledger.aligned
    ensures |pauses| == |s.ledger.bytes| && Positive(pauses)
    ensures s.flash == Pushes(Ticks(s.wire.base, lead), s.ledger.bytes, pauses)
  {
    hide Timeline, Levels, Pushes, FallingEdge, Tick;
    var waits :| Fits(s, waits);
    lead := waits[0];
    pauses := BytesTimeline(s.wire.base, s.ledger.bytes, waits);
  }

  /** An acknowledged configuration byte returns what a flash, busy or not, had ready when it
      came. */
  lemma ReplyDeliversTimed(aw: nat, s: System) returns (lead: nat, pauses: seq<(nat, nat)>)
    requires SpiRuns.Invariant(aw, s) && OnTime(s) && 8 * |s.ledger.bytes| < 0x1_0000_0000
    requires s.regs.ack && |s.ledger.queue| > 0 && s.ledger.queue[0].Transfer? && s.ledger.aligned
    ensures |s.ledger.bytes| > 0 && s.ledger.queue[0].payload == s.ledger.bytes[|s.ledger.bytes| - 1]
    ensures |pauses| == |s.ledger.bytes| - 1 && Positive(pauses)
    ensures var g := Pushes(Ticks(s.wire.base, lead), s.ledger.bytes[..|s.ledger.bytes| - 1], pauses);
      !g.state.Lost? && !g.state.SlowRead? ==> s.regs.data == UserData(g.oreg[24..])
  {
    hide Timeline, Levels, Pushes, FallingEdge, Tick, BitsOf;
    var waits :| Fits(s, waits);
    var base, bytes := s.wire.base, s.ledger.bytes;
    var n := |bytes| - 1;
    var front, bits := BytesBits(bytes[..n]), BitsOf(bytes[n], 8);
    lead := waits[0];
    pauses := BytesTimeline(base, bytes[..n], waits[..|front| + 1]);
    var g := Pushes(Ticks(base, lead), bytes[..n], pauses);
    TimelineSplit(base, front, bits, waits);
    WholeCount(g, n);
    ByteTimeline(g, bytes[n], [0] + waits[|front| + 1..]);
    LatestOfSum(Levels(base, front, waits[..|front| + 1]), Levels(g, bits, [0] + waits[|front| + 1..]));
  }

  /** What another clock of chip select high leaves alone. */
  predicate Rested(g: Flash) {
    || g.state.Lost?
    || (g.lastSck && g.ireg == Zeros(32) && g.count == 0 && g.oreg == Zeros(24) + BitsOf(0xfe, 8)
        && !g.state.PageProgram? && !g.state.SectorErase?)
  }

  lemma DeselectRests(f: Flash)
    ensures Rested(Deselect(f))
  {
    hide AndPage, Erase, BitsOf;
  }

  lemma RestedStays(g: Flash)
    requires Rested(g)
    ensures Deselect(g) == g && Rested(Tick(g))
  {
    hide BitsOf;
  }

  lemma DeselectOnce(f: Flash)
    ensures Deselect(Tick(Deselect(f))) == Tick(Deselect(f))
  {
    hide Deselect, Tick, Rested;
    DeselectRests(f);
    RestedStays(Deselect(f));
    RestedStays(Tick(Deselect(f)));
  }

  lemma SettlesTimed(f: Flash, lclsck: bool, mosi: bool)
    ensures SimTick(f, true, lclsck, mosi) == Tick(Deselect(Tick(f)))
  {
    hide Deselect, Tick;
    DeselectOnce(Tick(f));
  }

  lemma ReleaseClock(aw: nat, s: System, i: Input)
    requires Control(s.regs, s.lclsck) && Sending(s)
    requires s.regs.user && s.regs.delay == 0 && s.ledger.aligned && i.cfgStb && i.we && i.Release()
    ensures !s.regs.csn && !s.lclsck && Step(aw, s, i).regs.csn
  {
    hide NextFlash, NextWire, NextLedger;
  }

  lemma ThreeTicks(f: Flash, g: Flash)
    ensures Ticks(f, 3) == Tick(Tick(Tick(f))) && Ticks(g, 1) == Tick(g)
  {
    hide Tick;
    assert Ticks(f, 1) == Tick(f) by {
      assert Ticks(f, 0) == f;
    }
    assert Ticks(f, 2) == Tick(Ticks(f, 1));
    assert Ticks(f, 3) == Tick(Ticks(f, 2));
    assert Ticks(g, 0) == g;
  }

  /** Writing 0x100 lets go of the command, busy or not. */
  lemma ReleaseDeliversTimed(aw: nat, s: System, i: Input, j: Input)
    requires SpiRuns.Invariant(aw, s) && OnTime(s)
    requires s.regs.user && s.regs.delay == 0 && s.ledger.aligned
    requires Legal(aw, s, i) && i.cfgStb && i.we && i.Release()
    ensures Step(aw, Step(aw, s, i), j).flash == Ticks(Deselect(Ticks(s.flash, 3)), 1)
  {
    ReleaseClock(aw, s, i);
    hide Deselect, Fits, SimTick, Tick, Ticks, Next, NextWire, NextLedger, Control, Sending, Pending, Legal;
    var f, t := s.flash, Step(aw, s, i);
    SelectedTick(f, s.lclsck, s.regs.Mosi());
    SettlesTimed(t.flash, t.lclsck, t.regs.Mosi());
    ThreeTicks(f, Deselect(Tick(t.flash)));
  }
}
