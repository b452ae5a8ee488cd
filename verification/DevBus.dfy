/** The bus as the host's flash driver sees it: a configuration register through which the
    flash takes bytes, and the flash contents as words.  Every access is played out on the
    controller and the flash, clock by clock, with any number of idle clocks before and after. */
module DevBus {
  import opened Bits
  import opened FlashDevice
  import opened FlashProgram
  import opened FlashRead
  import opened SpiXpress
  import opened SpiSystem
  import opened SpiRuns
  import opened SpiTiming
  import opened SpiBurst
  import opened SpiAccess

  /** A write or erase is in progress exactly as long as its timer runs. */
  ghost predicate Timed(f: Flash)
  {
    (f.wip <==> f.writeCount > 0) && f.writeCount <= TSE
  }

  /** Deselected, with nothing armed. */
  ghost predicate Calm(f: Flash)
  {
    Fresh(f) && Timed(f) && !f.state.PageProgram? && !f.state.SectorErase?
  }

  /** Time moves nothing but the timer and the two status flags it clears. */
  lemma {:induction false} TicksOnly(f: Flash, n: nat)
    requires Timed(f)
    ensures var g := Ticks(f, n);
      && Timed(g) && g == f.(writeCount := g.writeCount, wip := g.wip, wel := g.wel)
      && g.writeCount == (if f.writeCount <= n then 0 else f.writeCount - n)
      && (!f.wip ==> g == f) && (g.wip ==> f.wip) && (f.wip && !g.wip ==> !g.wel)
  {
    if n == 0 {
    } else {
      TicksOnly(f, n - 1);
    }
  }

  /** A page program keeps the flash busy for 600 calls, twelve microseconds at 50 MHz, */
  lemma ProgramTakes(f: Flash, a: nat, data: seq<byte>, n: nat)
    requires Fresh(f) && f.wel && !f.wip && a < SIZE && 40 + 8 * |data| < 0x1_0000_0000
    ensures Ticks(Deselect(PushBytes(f, ProgramCommand(a, data))), n).wip <==> n < 600
  {
    hide PushBytes, Deselect, AndPage, Overlay, ProgramCommand;
    ProgramEffect(f, a, data);
    TicksOnly(Deselect(PushBytes(f, ProgramCommand(a, data))), n);
  }

  /** and a sector erase for 750000, fifteen milliseconds. */
  lemma EraseTakes(f: Flash, a: nat, n: nat)
    requires Fresh(f) && f.wel && !f.wip && a < ERASE_LIMIT
    ensures Ticks(Deselect(PushBytes(f, EraseCommand(a))), n).wip <==> n < 750_000
  {
    hide PushBytes, Deselect, Erase, EraseCommand;
    EraseEffect(f, a);
    TicksOnly(Deselect(PushBytes(f, EraseCommand(a))), n);
  }

  lemma QuietTicks(f: Flash, n: nat)
    requires Timed(f) && !f.wip
    ensures Ticks(f, n) == f
  {
    TicksOnly(f, n);
  }

  lemma CalmTicks(f: Flash, n: nat)
    requires Calm(f)
    ensures Calm(Ticks(f, n)) && Ticks(f, n).mem == f.mem
  {
    TicksOnly(f, n);
  }

  lemma CalmStaysCalm(f: Flash)
    requires Calm(f)
    ensures Calm(Deselect(f)) && Deselect(f).mem == f.mem && Deselect(f).wip == f.wip
    ensures Deselect(f).wel == f.wel
  {
  }

  predicate Aligned4(n: nat) {
    n % 4 == 0
  }

  /** A multiple of 2^24, which the driver's masks take away. */
  predicate Masked(base: nat) {
    base % 0x100_0000 == 0
  }

  lemma ByteOnes()
    ensures BitsOf(0xff, 8) == Ones(8)
  {
    assert BitsOf(0x0f, 4) == [true, true, true, true];
    BitsOfJoin(0x0f, 0x0f, 4, 4);
    assert Pow2(4) == 16;
  }

  /** buildword(): four bytes, big-endian. */
  function BuildWord(b: seq<byte>): word
    requires |b| >= 4
  {
    BitsOf(b[0], 8) + BitsOf(b[1], 8) + BitsOf(b[2], 8) + BitsOf(b[3], 8)
  }

  /** Byte `j` of a word once byteswapbuf() has put a little-endian host's buffer in order. */
  function HostByte(w: word, j: nat): byte
    requires j < 4
  {
    ByteOf(w[8 * j..8 * j + 8])
  }

  lemma ByteRoundTrip(b: byte)
    ensures ByteOf(BitsOf(b, 8)) == b
  {
    Pow2Constants();
    ValOfBits(b, 8);
  }

  lemma HostByteOfBuild(b: seq<byte>, j: nat)
    requires |b| >= 4 && j < 4
    ensures HostByte(BuildWord(b), j) == b[j]
  {
    ByteRoundTrip(b[j]);
    var w := BuildWord(b);
    if j == 0 {
      assert w[0..8] == BitsOf(b[0], 8);
    } else if j == 1 {
      assert w[8..16] == BitsOf(b[1], 8);
    } else if j == 2 {
      assert w[16..24] == BitsOf(b[2], 8);
    } else {
      assert w[24..32] == BitsOf(b[3], 8);
    }
  }

  lemma WordIsBuilt(mem: seq<byte>, line: nat)
    requires 4 * line + 3 < |mem|
    ensures WordAt(mem, line) == BuildWord(mem[4 * line..4 * line + 4])
  {
  }

  /** Consecutive words of the flash, from `line` on. */
  predicate WordsOf(words: seq<word>, mem: seq<byte>, line: nat) {
    4 * (line + |words|) <= |mem| && forall k :: 0 <= k < |words| ==> words[k] == WordAt(mem, line + k)
  }

  lemma NoWords(f: Flash, line: nat)
    requires Calm(f) && 4 * line <= SIZE
    ensures |f.mem| == SIZE && WordsOf([], f.mem, line)
  {
  }

  lemma OneMoreWord(words: seq<word>, mem: seq<byte>, line: nat, w: word)
    requires WordsOf(words, mem, line) && 4 * (line + |words|) + 4 <= |mem| && w == WordAt(mem, line + |words|)
    ensures WordsOf(words + [w], mem, line)
  {
  }

  class DevBus {
    const flashBase: nat
    var system: System

    // What the driver can tell of it: the flash, whether configuration mode holds the chip, and
    // the byte the port has ready.
    ghost var flash: Flash
    ghost var config: bool
    ghost var reply: byte

    /** R_FLASH is a nonzero multiple of 2^24, with room for the driver's sums in 32 bits. */
    ghost predicate Mapped()
      reads this
    {
      flashBase > 0 && Masked(flashBase) && flashBase + 0x101_0000 <= 0x1_0000_0000 && Connected()
    }

    /** Between two accesses. */
    ghost predicate Connected()
      reads this
    {
      Between(system) && flash == system.flash && config == system.regs.user && reply == ByteOf(system.regs.data[24..])
    }

    ghost predicate Quiet()
      reads this
    {
      Mapped() && !config && Calm(flash) && !flash.wip
    }

    /** From power-on, one clock later. */
    constructor (flashBase: nat, system: System)
      requires Init(system)
      ensures this.flashBase == flashBase && !config && flash == Ticks(Deselect(Ticks(system.flash, 1)), 1)
      ensures Connected()
    {
      Begins(system);
      var now := Step(AW, system, Pause(false));
      this.flashBase, this.system := flashBase, now;
      flash, config, reply := now.flash, false, ByteOf(now.regs.data[24..]);
    }

    /** What the driver can tell of the system as it is now. */
    method Look()
      requires Between(system)
      modifies this`flash, this`config, this`reply
      ensures Connected()
      ensures flash == system.flash && config == system.regs.user && reply == ByteOf(system.regs.data[24..])
    {
      hide Between;
      flash, config, reply := system.flash, system.regs.user, ByteOf(system.regs.data[24..]);
    }

    /** One idle clock, with or without the cycle held. */
    method Rest()
      requires Connected()
      modifies this
      ensures Connected() && flash == Ticks(old(flash), 2) && config == old(config) && reply == old(reply)
    {
      hide Done, Step, Legal, Ticks;
      var cyc: bool := *;
      PauseStep(system, cyc);
      system := Step(AW, system, Pause(cyc));
      Look();
    }

    /** Some time passes. */
    method Elapse() returns (ghost n: nat)
      requires Connected()
      modifies this
      ensures Connected() && flash == Ticks(old(flash), n) && config == old(config) && reply == old(reply)
    {
      hide Between, Ticks;
      var clocks: int := *;
      n := 0;
      NoTicks(flash);
      while clocks > 0
        invariant Connected() && flash == Ticks(old(flash), n) && config == old(config) && reply == old(reply)
      {
        Rest();
        TicksAdd(old(flash), n, 2);
        n, clocks := n + 2, clocks - 1;
      }
    }

    /** writeio(R_FLASHCFG, v).  In the middle of a read command the last bit of the reply may be
        blanked, so that nothing is said of it. */
    method WriteConfig(v: nat) returns (ghost before: nat, ghost after: nat)
      requires Connected()
      modifies this
      ensures Connected()
      ensures before > 0 && after > 0
      ensures config == (v / 256 % 2 == 0)
      ensures
        if v / 256 % 2 == 1 then
          flash == Ticks(Deselect(Ticks(old(flash), before)), after) && reply == old(reply)
        else
          && flash == Ticks(PushByte(Ticks(old(flash), before), v % 256), after)
          && (!old(flash).state.Lost? && !old(flash).state.SlowRead? ==> reply == ByteOf(old(flash).oreg[24..]))
    {
      hide Done, Ticks, PushByte, Deselect;
      ghost var n := Elapse();
      TicksKeepBits(old(flash), n);
      if v / 256 % 2 == 1 {
        Release(v);
        before, after := n + 3, 1;
        TicksAdd(old(flash), n, 3);
      } else {
        before, after := Send(v);
        TicksAdd(old(flash), n, before);
        before := n + before;
      }
      ghost var f, m := flash, after;
      n := Elapse();
      TicksAdd(if v / 256 % 2 == 1 then Deselect(Ticks(old(flash), before)) else PushByte(Ticks(old(flash), before), v % 256), m, n);
      after := m + n;
    }

    method Send(v: nat) returns (ghost before: nat, ghost after: nat)
      requires Connected() && v / 256 % 2 == 0
      modifies this
      ensures Connected() && before > 0 && after > 0 && config
      ensures flash == Ticks(PushByte(Ticks(old(flash), before), v % 256), after)
      ensures !old(flash).state.Lost? && !old(flash).state.SlowRead? ==> reply == ByteOf(old(flash).oreg[24..])
    {
      hide Between, Ticks, PushByte, Run, Step;
      var cyc: bool := *;
      before, after := Sends(system, v, cyc);
      system := Step(AW, Run(AW, system, ByteAccess(v)), Pause(cyc));
      Look();
    }

    method Release(v: nat)
      requires Connected() && v / 256 % 2 == 1
      modifies this
      ensures Connected() && !config && reply == old(reply)
      ensures flash == Ticks(Deselect(Ticks(old(flash), 3)), 1)
    {
      hide Between, Ticks, Deselect, Run, LegalRun;
      Releases(system, v);
      system := Run(AW, system, ReleaseAccess(v));
      Look();
    }

    /** readio(R_FLASHCFG) */
    method ReadConfig() returns (v: nat, ghost n: nat)
      requires Connected() && config
      modifies this
      ensures Connected() && config
      ensures v == 0x1000 + reply && reply == old(reply) && flash == Ticks(old(flash), n)
    {
      hide Between, Ticks, Step, Val;
      var cyc: bool := *;
      Reads(system, cyc);
      system := Step(AW, system, ConfigAccess(false, 0));
      v, n := Val(system.regs.data), 4;
      system := Step(AW, system, Pause(cyc));
      Look();
    }

    /** readi(addr, n, ...): a burst of sequential reads. */
    method ReadWords(addr: nat, n: nat) returns (words: seq<word>)
      requires Quiet() && Aligned4(addr) && flashBase <= addr && addr + 4 * n <= flashBase + 0x100_0000
      modifies this
      ensures Quiet() && flash.mem == old(flash.mem)
      ensures |words| == n
      ensures var line := (addr - flashBase) / 4;
        forall k :: 0 <= k < n ==> words[k] == WordAt(flash.mem, line + k)
    {
      hide Calm, WordAt, Connected;
      words := [];
      if n > 0 {
        words := Burst((addr - flashBase) / 4, n);
      }
    }

    method Burst(line: nat, n: nat) returns (words: seq<word>)
      requires Quiet() && 0 < n && 4 * (line + n) <= SIZE
      modifies this
      ensures Quiet() && flash.mem == old(flash.mem)
      ensures |words| == n && WordsOf(words, flash.mem, line)
    {
      ghost var base := flash;
      hide Calm, WordAt, Reading, Connected, WordsOf, Between, Done, Masked, Aligned4, Bursting;
      words := [];
      NoWords(base, line);
      Open(line);
      while |words| + 1 < n
        invariant |words| < n && Reading(base, line + |words|)
        invariant WordsOf(words, base.mem, line)
      {
        var w := Continue(base, line + |words|);
        OneMoreWord(words, base.mem, line, w);
        words := words + [w];
      }
      var w := Close(base, line + |words|);
      OneMoreWord(words, base.mem, line, w);
      words := words + [w];
    }

    /** In the middle of a burst, with word `line` on its way. */
    ghost predicate Reading(base: Flash, line: nat)
      reads this
    {
      Calm(base) && !base.wip && Bursting(AW, system, base, line, line) && system.regs.delay > 2
    }

    method Open(line: nat)
      requires Quiet() && 4 * line + 3 < SIZE
      modifies this
      ensures Reading(old(flash), line)
    {
      RestClock(system);
      QuietTicks(flash, 2);
      InSight(line);
      Opens(AW, system, line);
      hide Between, Bursting, Ticks, Next, NextFlash, NextWire, NextLedger;
      system := Step(AW, system, Request(line));
    }

    /** The word on its way comes in while the next one is asked for. */
    method Continue(ghost base: Flash, line: nat) returns (w: word)
      requires Reading(base, line) && 4 * (line + 1) + 3 < SIZE
      modifies this
      ensures Reading(base, line + 1) && w == WordAt(base.mem, line)
    {
      hide Bursting, OneWord, WordAt, Timed;
      InSight(line + 1);
      TakesWord(AW, system, base, line, line);
      system := OneWord(AW, system, line + 1);
      w := system.regs.data;
    }

    /** The last word comes in and the chip is let go. */
    method Close(ghost base: Flash, line: nat) returns (w: word)
      requires Reading(base, line) && 4 * line + 3 < SIZE
      modifies this
      ensures Connected() && !config && Calm(flash) && !flash.wip && flash.mem == base.mem
      ensures w == WordAt(base.mem, line)
    {
      hide Bursting, Between, Run, Step, WordAt, Deselect, Tick;
      ghost var sent, first := CloseWord(system, base, line, line);
      AfterBurst(base, sent, first);
      CalmOnce(Deselect(Shifts(base, sent)));
      system := Run(AW, system, Idles(system.regs.delay));
      w := system.regs.data;
      system := Step(AW, system, Pause(true));
      Look();
    }
  }

  lemma CalmOnce(f: Flash)
    requires Calm(f) && !f.wip
    ensures Tick(f) == f
  {
  }

  /** Every word of the flash has an address. */
  lemma InSight(line: nat)
    requires 4 * line + 3 < SIZE
    ensures line < Pow2(AW) && (line > 0 ==> Succ(AW, line - 1) == line)
  {
    Pow2Constants();
  }

  lemma NoTicks(f: Flash)
    ensures Ticks(f, 0) == f
  {
  }

  lemma EdgeBuffer(f: Flash, mosi: bool)
    requires |f.pmem| == 256
    ensures |FallingEdge(f, mosi).pmem| == 256
  {
    hide OnCommand, OnByte;
    CommandBuffer(TakeIn(f, [mosi]));
    ByteBuffer(TakeIn(f, [mosi]));
  }

  lemma CommandBuffer(s: Flash)
    ensures OnCommand(s).pmem == s.pmem
  {
    hide BitsOf, ByteOf;
  }

  lemma ByteBuffer(s: Flash)
    requires |s.pmem| == 256
    ensures |OnByte(s).pmem| == 256
  {
    hide ReadByte, BitsOf, ByteOf, PageOf;
  }

  lemma {:induction false} ShiftsBuffer(f: Flash, bits: seq<bool>)
    requires |f.pmem| == 256
    ensures |Shifts(f, bits).pmem| == 256
  {
    hide FallingEdge;
    if |bits| == 0 {
    } else {
      ShiftsBuffer(f, bits[..|bits| - 1]);
      EdgeBuffer(Shifts(f, bits[..|bits| - 1]), bits[|bits| - 1]);
    }
  }

  lemma DeselectedReading(g: Flash)
    requires g.state.SlowRead? && g.lastSck && |g.pmem| == 256 && |g.mem| == SIZE && Timed(g)
    ensures Calm(Deselect(g)) && Deselect(g).mem == g.mem && Deselect(g).wip == g.wip
  {
  }

  lemma AfterBurst(f: Flash, sent: seq<bool>, line: nat)
    requires Calm(f) && !f.wip && 4 * line < SIZE
    requires 32 <= |sent| < 0x1_0000_0000 && sent[..32] == ReadCommand(line)
    ensures var g := Deselect(Shifts(f, sent)); Calm(g) && !g.wip && g.mem == f.mem
  {
    hide FallingEdge, Deselect;
    ShiftsKeep(f, sent);
    ShiftsBuffer(f, sent);
    KeepsReading(f, sent, line);
    DeselectedReading(Shifts(f, sent));
  }
}
