/** The serial flash simulator of sim/flashsim.cpp, in its one-bit mode, as a value.

    `Operator` is one call of the simulator.  `PushByte` and `Deselect` are the same
    device seen a whole byte at a time; `EightShifts` shows that the two views agree.
 */
module FlashDevice {
  import opened Bits

  const SIZE: nat := 0x100_0000        // m_membytes for the default lglen = 24
  const ERASE_LIMIT: nat := 0x40_0000  // sector erases from here up fail an assertion
  const TPP: nat := 600                // page program time at 50 MHz, in calls
  const TSE: nat := 750_000            // sector erase time at 50 MHz, in calls

  /** `Lost`: the simulator has aborted on a failed assertion, or was sent a command
      (dual and quad modes, identification, ...) that this model does not follow. */
  datatype Command = Idle | Rdsr | SlowRead | PageProgram | SectorErase | Invalid | Lost

  datatype Flash = Flash(
    state: Command, mem: seq<byte>, pmem: seq<byte>, lastSck: bool, writeCount: nat,
    ireg: word, oreg: word, wip: bool, wel: bool, addr: nat, count: nat)
  {
    ghost predicate Valid() {
      |mem| == SIZE && |pmem| == 256
    }

    /** m_sreg: WIP in bit 0, WEL in bit 1, 0x1c everywhere else. */
    function Sreg(): byte {
      0x1c + (if wel then 2 else 0) + (if wip then 1 else 0)
    }

    predicate Busy() {
      wip || writeCount != 0
    }

    /** m_ireg & 0xff */
    function LastByte(): byte {
      ByteOf(ireg[24..])
    }

    /** m_ireg & m_memmask */
    function Address(): (a: nat)
      ensures a < SIZE
    {
      ValBound(ireg[8..]);
      Pow2Constants();
      Val(ireg[8..])
    }
  }

  // ---- Pieces of the simulator -------------------------------------------------

  /** The write timer, run down by one on every call. */
  function Tick(f: Flash): Flash {
    if f.writeCount == 0 then f
    else if f.writeCount == 1 then f.(writeCount := 0, wip := false, wel := false)
    else f.(writeCount := f.writeCount - 1)
  }

  function Ticks(f: Flash, n: nat): Flash {
    if n == 0 then f else Tick(Ticks(f, n - 1))
  }

  /** QOREG: replace the low byte of the output register. */
  function Qoreg(f: Flash, b: byte): Flash {
    f.(oreg := f.oreg[..24] + BitsOf(b, 8))
  }

  /** Reads past the last byte are outside the array; no theorem relies on their value. */
  function ReadByte(mem: seq<byte>, a: nat): byte {
    if a < |mem| then mem[a] else 0xff
  }

  function AndByte(a: byte, b: byte): byte {
    AndAtMost(a, b);
    And(a, b)
  }

  function PageOf(a: nat): (p: nat)
    ensures p <= a < p + 256 && p % 256 == 0
  {
    a - a % 256
  }

  function SectorOf(a: nat): (s: nat)
    ensures s <= a < s + 0x1_0000 && s % 0x1_0000 == 0
  {
    a - a % 0x1_0000
  }

  /** A page program only clears bits. */
  function AndPage(mem: seq<byte>, base: nat, page: seq<byte>): (r: seq<byte>)
    ensures |r| == |mem|
  {
    seq(|mem|, i requires 0 <= i < |mem| =>
      if base <= i < base + |page| then AndByte(mem[i], page[i - base]) else mem[i])
  }

  function Erase(mem: seq<byte>, base: nat): (r: seq<byte>)
    ensures |r| == |mem|
  {
    seq(|mem|, i requires 0 <= i < |mem| =>
      if base <= i < base + 0x1_0000 then 0xff else mem[i])
  }

  function BlankPage(): (page: seq<byte>)
    ensures |page| == 256
  {
    seq(256, _ => 0xff)
  }

  /** Chip select high: whatever the command armed now takes effect. */
  function Deselect(f: Flash): Flash {
    var g := f.(lastSck := true, ireg := Zeros(32), count := 0,
                oreg := Zeros(24) + BitsOf(0xfe, 8));
    match f.state
    case Lost => f
    case PageProgram =>
      g.(state := Idle, wel := false, wip := true, writeCount := TPP,
         mem := AndPage(f.mem, PageOf(f.addr), f.pmem))
    case SectorErase =>
      g.(state := Idle, wel := false, wip := true, writeCount := TSE,
         addr := SectorOf(f.addr), mem := Erase(f.mem, SectorOf(f.addr)))
    case _ => g
  }

  /** The eighth bit is in: decode the command. */
  function OnCommand(s: Flash): Flash {
    var g := Qoreg(s, 0xa5);
    match s.LastByte()
    case 0x00 => g.(state := Idle)
    case 0x02 => g.(state := if s.wel && !s.wip then PageProgram else Invalid)
    case 0x03 => g.(state := SlowRead)
    case 0x04 => g.(state := Idle, wel := false)
    case 0x05 => Qoreg(s, s.Sreg()).(state := Rdsr)
    case 0x06 => g.(state := Idle, wel := true)
    case 0xd8 => g.(state := if s.wel && !s.wip then SectorErase else Invalid)
    case 0xff => g.(state := Idle)
    case _ => g.(state := Lost)
  }

  /** A later byte is in. */
  function OnByte(s: Flash): Flash {
    var g := Qoreg(s, 0);
    match s.state
    case Rdsr => Qoreg(s, s.Sreg())
    case SlowRead =>
      if s.count == 32 then
        Qoreg(s, ReadByte(s.mem, s.Address())).(addr := s.Address() + 1)
      else if s.count >= 40 && !s.wip then
        Qoreg(s, ReadByte(s.mem, s.addr)).(addr := s.addr + 1)
      else
        s.(oreg := Zeros(32))
    case PageProgram =>
      if s.count == 32 then
        g.(addr := s.Address(), pmem := BlankPage())
      else if s.count >= 40 && |s.pmem| == 256 then
        g.(pmem := s.pmem[s.addr % 256 := s.LastByte()],
           addr := PageOf(s.addr) + (s.addr + 1) % 256)
      else
        g
    case SectorErase =>
      if s.count == 32 then
        // m_ireg & 0xffc000, which must not reach bit 22
        var a := s.Address() - s.Address() % 0x4000;
        if a < ERASE_LIMIT then g.(addr := a) else g.(state := Lost)
      else
        g
    case _ => g
  }

  function Dispatch(s: Flash): Flash {
    if s.count == 8 then OnCommand(s)
    else if s.count % 8 == 0 && s.count != 0 then OnByte(s)
    else s
  }

  /** m_count is 32 bits wide. */
  function Count(n: nat): nat {
    if n >= 0x1_0000_0000 then n - 0x1_0000_0000 else n
  }

  /** `bits` have gone in, none of them decoded yet. */
  function TakeIn(f: Flash, bits: seq<bool>): Flash
    requires |bits| <= 8
  {
    f.(ireg := f.ireg[|bits|..] + bits,
       oreg := f.oreg[|bits|..] + Zeros(|bits|),
       count := Count(f.count + |bits|))
  }

  function FallingEdge(f: Flash, mosi: bool): Flash {
    if f.state.Lost? then f else Dispatch(TakeIn(f, [mosi]))
  }

  /** One call of FLASHSIM::operator(). */
  function Operator(f: Flash, csn: bool, sck: bool, mosi: bool): Flash {
    var g := Tick(f);
    if csn then Deselect(g)
    else if !g.lastSck || sck then g.(lastSck := sck)
    else FallingEdge(g, mosi).(lastSck := false)
  }

  /** Bit 1 of its result, MISO: m_oreg & 0x100. */
  predicate Miso(f: Flash, csn: bool) {
    !csn && f.oreg[23]
  }

  /** One call of FLASHSIM::simtick() with ODDR_IO set: `lclsck` is the clock enable of
      the tick before (CKDELAY = 1). */
  function SimTick(f: Flash, csn: bool, lclsck: bool, mosi: bool): Flash {
    Operator(Operator(f, csn, !lclsck, mosi), csn, true, mosi)
  }

  // ---- The device a byte at a time ----------------------------------------------

  function PushByte(f: Flash, b: byte): Flash {
    if f.state.Lost? then f else Dispatch(TakeIn(f, BitsOf(b, 8)))
  }

  function PushBytes(f: Flash, bytes: seq<byte>): Flash {
    if |bytes| == 0 then f
    else PushByte(PushBytes(f, bytes[..|bytes| - 1]), bytes[|bytes| - 1])
  }

  function Shifts(f: Flash, bits: seq<bool>): Flash {
    if |bits| == 0 then f
    else FallingEdge(Shifts(f, bits[..|bits| - 1]), bits[|bits| - 1])
  }

  lemma TakeInStep(f: Flash, bits: seq<bool>, b: bool)
    requires f.count < 0x1_0000_0000 && |bits| < 8
    ensures TakeIn(TakeIn(f, bits), [b]) == TakeIn(f, bits + [b])
  {
    var n := |bits|;
    assert (f.ireg[n..] + bits)[1..] + [b] == f.ireg[n + 1..] + (bits + [b]);
    assert (f.oreg[n..] + Zeros(n))[1..] + Zeros(1) == f.oreg[n + 1..] + Zeros(n + 1);
  }

  lemma NothingToDecode(s: Flash)
    requires s.count % 8 != 0
    ensures Dispatch(s) == s
  {
    hide OnCommand, OnByte;
  }

  lemma FallingMidByte(f: Flash, bits: seq<bool>, b: bool)
    requires !f.state.Lost? && f.count % 8 == 0 && f.count < 0x1_0000_0000
    requires |bits| < 7
    ensures FallingEdge(TakeIn(f, bits), b) == TakeIn(f, bits + [b])
  {
    TakeInStep(f, bits, b);
    NothingToDecode(TakeIn(f, bits + [b]));
  }

  lemma {:induction false} PartialShifts(f: Flash, bits: seq<bool>)
    requires !f.state.Lost? && f.count % 8 == 0 && f.count < 0x1_0000_0000
    requires |bits| < 8
    ensures Shifts(f, bits) == TakeIn(f, bits)
  {
    if |bits| == 0 {
      assert f.ireg[0..] + bits == f.ireg;
      assert f.oreg[0..] + Zeros(0) == f.oreg;
    } else {
      var front, last := bits[..|bits| - 1], bits[|bits| - 1];
      assert bits == front + [last];
      PartialShifts(f, front);
      FallingMidByte(f, front, last);
    }
  }

  /** Eight falling edges decode exactly what one `TakeIn` of the eight bits decodes. */
  lemma EightShifts(f: Flash, bits: seq<bool>)
    requires !f.state.Lost? && f.count % 8 == 0 && f.count < 0x1_0000_0000
    requires |bits| == 8
    ensures Shifts(f, bits) == Dispatch(TakeIn(f, bits))
  {
    hide Dispatch;
    var front := bits[..7];
    PartialShifts(f, front);
    TakeInStep(f, front, bits[7]);
    assert bits == front + [bits[7]];
  }

  lemma {:induction false} LostForever(f: Flash, bits: seq<bool>)
    requires f.state.Lost?
    ensures Shifts(f, bits) == f
  {
    if |bits| == 0 {
    } else {
      LostForever(f, bits[..|bits| - 1]);
    }
  }

  /** A byte sent top bit first arrives as that byte. */
  lemma ByteArrives(f: Flash, b: byte)
    requires f.count % 8 == 0 && f.count < 0x1_0000_0000
    ensures Shifts(f, BitsOf(b, 8)) == PushByte(f, b)
  {
    if f.state.Lost? {
      LostForever(f, BitsOf(b, 8));
    } else {
      EightShifts(f, BitsOf(b, 8));
    }
  }

  lemma {:induction false} ShiftsSplit(f: Flash, x: seq<bool>, y: seq<bool>)
    ensures Shifts(f, x + y) == Shifts(Shifts(f, x), y)
  {
    if |y| == 0 {
      assert x + y == x;
    } else {
      var front := y[..|y| - 1];
      ShiftsSplit(f, x, front);
      assert (x + y)[..|x + y| - 1] == x + front;
    }
  }

  /** The level of MISO after each falling edge. */
  function Outputs(f: Flash, bits: seq<bool>): (outs: seq<bool>)
    ensures |outs| == |bits|
  {
    if |bits| == 0 then []
    else Outputs(f, bits[..|bits| - 1]) + [Miso(Shifts(f, bits), false)]
  }

  lemma {:induction false} OutputAt(f: Flash, bits: seq<bool>, k: nat)
    requires k < |bits|
    ensures Outputs(f, bits)[k] == Miso(Shifts(f, bits[..k + 1]), false)
  {
    if k == |bits| - 1 {
      assert bits[..k + 1] == bits;
    } else {
      var front := bits[..|bits| - 1];
      OutputAt(f, front, k);
      assert front[..k + 1] == bits[..k + 1];
    }
  }

  // ---- Time -----------------------------------------------------------------------

  /** What only the passing of time and the chip select can change. */
  predicate SameBody(f: Flash, g: Flash) {
    g.mem == f.mem && g.wip == f.wip && g.writeCount == f.writeCount && g.lastSck == f.lastSck
  }

  lemma CommandCounts(s: Flash)
    ensures OnCommand(s).count == s.count
  {
  }

  lemma ByteCounts(s: Flash)
    ensures OnByte(s).count == s.count
  {
    hide Qoreg, Zeros, PageOf, ReadByte, BlankPage;
    QoregCounts(s, 0);
    QoregCounts(s, s.Sreg());
    QoregCounts(s, ReadByte(s.mem, s.Address()));
    QoregCounts(s, ReadByte(s.mem, s.addr));
  }

  lemma QoregCounts(s: Flash, b: byte)
    ensures Qoreg(s, b).count == s.count
  {
  }

  lemma DispatchCounts(s: Flash)
    ensures Dispatch(s).count == s.count
  {
    hide OnCommand, OnByte;
    CommandCounts(s);
    ByteCounts(s);
  }

  lemma CommandKeeps(s: Flash)
    ensures SameBody(s, OnCommand(s))
  {
  }

  lemma ByteKeeps(s: Flash)
    ensures SameBody(s, OnByte(s))
  {
  }

  /** A falling edge touches neither the array nor the timer. */
  lemma EdgeKeeps(f: Flash, mosi: bool)
    ensures SameBody(f, FallingEdge(f, mosi))
  {
    CommandKeeps(TakeIn(f, [mosi]));
    ByteKeeps(TakeIn(f, [mosi]));
  }

  lemma {:induction false} ShiftsKeep(f: Flash, bits: seq<bool>)
    ensures SameBody(f, Shifts(f, bits))
  {
    if |bits| == 0 {
    } else {
      var front := bits[..|bits| - 1];
      ShiftsKeep(f, front);
      EdgeKeeps(Shifts(f, front), bits[|bits| - 1]);
    }
  }

  /** One tick of the selected, idle device: one falling edge if its clock is enabled. */
  lemma QuietTick(f: Flash, lclsck: bool, mosi: bool)
    requires f.lastSck && !f.Busy()
    ensures SimTick(f, false, lclsck, mosi) == if lclsck then FallingEdge(f, mosi) else f
  {
    EdgeKeeps(f, mosi);
  }

  /** What deselection leaves behind. */
  ghost predicate Standby(f: Flash) {
    f.lastSck && (f.state.Lost? || (f.count == 0 && f.ireg == Zeros(32)))
  }

  lemma DeselectedIsStandby(f: Flash, lclsck: bool, mosi: bool)
    requires f.lastSck
    ensures Standby(SimTick(f, true, lclsck, mosi))
  {
    hide AndPage, Erase, PageOf, SectorOf, BitsOf, FallingEdge;
  }

  lemma TickKeepsClockHigh(f: Flash, csn: bool, lclsck: bool, mosi: bool)
    requires f.lastSck
    ensures SimTick(f, csn, lclsck, mosi).lastSck
  {
    hide AndPage, Erase, PageOf, SectorOf, BitsOf, FallingEdge;
  }

  /** Deselection takes effect once, however long the chip stays deselected. */
  lemma Settles(f: Flash, lclsck: bool, mosi: bool)
    requires !f.Busy()
    ensures SimTick(f, true, lclsck, mosi) == Tick(Deselect(f))
  {
    hide AndPage, Erase, PageOf, SectorOf, BitsOf, FallingEdge;
    var g := Tick(Deselect(f));
    assert SimTick(f, true, lclsck, mosi) == Deselect(g);
  }

  // ---- Replies ------------------------------------------------------------------------

  lemma {:induction false} OutputsSplit(f: Flash, x: seq<bool>, y: seq<bool>)
    ensures Outputs(f, x + y) == Outputs(f, x) + Outputs(Shifts(f, x), y)
  {
    OutputsNone(Shifts(f, x));
    hide FallingEdge, Miso, Shifts, Outputs;
    if |y| == 0 {
      assert x + y == x;
    } else {
      var front, last := y[..|y| - 1], y[|y| - 1];
      assert front + [last] == y && x + front + [last] == x + y;
      OutputsSplit(f, x, front);
      OutputsOne(f, x + front, last);
      OutputsOne(Shifts(f, x), front, last);
      ShiftsSplit(f, x, y);
    }
  }

  lemma OutputsNone(f: Flash)
    ensures Outputs(f, []) == []
  {
  }

  lemma OutputsOne(f: Flash, bits: seq<bool>, last: bool)
    ensures Outputs(f, bits + [last]) == Outputs(f, bits) + [Miso(Shifts(f, bits + [last]), false)]
  {
    hide Shifts, Miso;
    assert (bits + [last])[..|bits|] == bits;
  }

  lemma CommandKeepsOutput(s: Flash)
    ensures OnCommand(s).oreg[..24] == s.oreg[..24]
  {
  }

  lemma ByteKeepsOutput(s: Flash)
    requires !s.state.SlowRead?
    ensures OnByte(s).oreg[..24] == s.oreg[..24]
  {
  }

  lemma OutputBitKept(s: Flash)
    requires !s.state.SlowRead?
    ensures Dispatch(s).oreg[23] == s.oreg[23]
  {
    CommandKeepsOutput(s);
    ByteKeepsOutput(s);
    assert Dispatch(s).oreg[23] == Dispatch(s).oreg[..24][23];
    assert s.oreg[23] == s.oreg[..24][23];
  }

  /** While a byte goes in, the low byte of the output register comes out. */
  lemma RepliesLowByte(f: Flash, b: byte)
    requires !f.state.Lost? && !f.state.SlowRead? && f.count % 8 == 0 && f.count < 0x1_0000_0000
    ensures Outputs(f, BitsOf(b, 8)) == f.oreg[24..]
  {
    var bits := BitsOf(b, 8);
    forall k | 0 <= k < 8
      ensures Outputs(f, bits)[k] == f.oreg[24 + k]
    {
      OutputAt(f, bits, k);
      var s := TakeIn(f, bits[..k + 1]);
      assert s.oreg[23] == f.oreg[24 + k];
      if k < 7 {
        PartialShifts(f, bits[..k + 1]);
      } else {
        assert bits[..8] == bits;
        EightShifts(f, bits);
        OutputBitKept(s);
      }
    }
  }
}
