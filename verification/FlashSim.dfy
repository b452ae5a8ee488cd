/** The simulator object itself: FLASHSIM's members, updated in place by each call. */
module FlashSim {
  import opened Bits
  import opened FlashDevice

  class FlashSim {
    var state: Command
    const mem: array<byte>
    const pmem: array<byte>
    var lastSck: bool
    var writeCount: nat
    var ireg: word
    var oreg: word
    var wip: bool
    var wel: bool
    var addr: nat
    var count: nat
    var ckdelay: bool

    ghost predicate Valid()
      reads this
    {
      mem.Length == SIZE && pmem.Length == 256 && mem != pmem && count < 0x1_0000_0000
    }

    ghost function State(): Flash
      reads this, mem, pmem
    {
      Flash(state, mem[..], pmem[..], lastSck, writeCount, ireg, oreg, wip, wel, addr, count)
    }

    constructor ()
      ensures Valid() && fresh(mem) && fresh(pmem)
      ensures state == Idle && lastSck && writeCount == 0 && !wip && !wel && !ckdelay
      ensures mem[..] == seq(SIZE, _ => 0xff)
    {
      state, lastSck, writeCount, wip, wel, ckdelay := Idle, true, 0, false, false, false;
      ireg, oreg, addr, count := Zeros(32), Zeros(32), 0, 0;
      mem := new byte[SIZE](_ => 0xff);
      pmem := new byte[256](_ => 0);
    }

    /** The programming loop. */
    method ProgramPage()
      requires Valid()
      modifies mem
      ensures mem[..] == AndPage(old(mem[..]), PageOf(addr), pmem[..])
    {
      var base, i := addr - addr % 256, 0;
      while i < 256
        invariant 0 <= i <= 256
        invariant forall k :: 0 <= k < mem.Length ==>
          mem[k] == if base <= k < base + i then AndByte(old(mem[k]), pmem[k - base]) else old(mem[k])
      {
        if base + i < mem.Length {
          mem[base + i] := AndByte(mem[base + i], pmem[i]);
        }
        i := i + 1;
      }
    }

    /** The erasing loop. */
    method EraseSector()
      requires Valid()
      modifies mem
      ensures mem[..] == Erase(old(mem[..]), SectorOf(addr))
    {
      var base, i := addr - addr % 0x1_0000, 0;
      while i < 0x1_0000
        invariant 0 <= i <= 0x1_0000
        invariant forall k :: 0 <= k < mem.Length ==>
          mem[k] == if base <= k < base + i then 0xff else old(mem[k])
      {
        if base + i < mem.Length {
          mem[base + i] := 0xff;
        }
        i := i + 1;
      }
    }

    method BlankBuffer()
      requires Valid()
      modifies pmem
      ensures pmem[..] == BlankPage()
    {
      var i := 0;
      while i < 256
        invariant 0 <= i <= 256
        invariant forall k :: 0 <= k < i ==> pmem[k] == 0xff
      {
        pmem[i] := 0xff;
        i := i + 1;
      }
    }

    method Timer()
      modifies this`writeCount, this`wip, this`wel
      ensures State() == Tick(old(State()))
    {
      if writeCount > 0 {
        writeCount := writeCount - 1;
        if writeCount == 0 {
          wip, wel := false, false;
        }
      }
    }

    /** Chip select high. */
    method Deselected()
      requires Valid()
      modifies this, mem
      ensures Valid() && State() == Deselect(old(State()))
    {
      hide AndPage, Erase, BitsOf;
      if state == Lost {
        return;
      }
      lastSck, ireg, count := true, Zeros(32), 0;
      if state == PageProgram {
        ProgramPage();
        state, wel, wip, writeCount := Idle, false, true, TPP;
      } else if state == SectorErase {
        EraseSector();
        state, wel, wip, writeCount := Idle, false, true, TSE;
        addr := SectorOf(addr);
      }
      oreg := Zeros(24) + BitsOf(0xfe, 8);
    }

    method Load(b: byte)
      modifies this`oreg
      ensures oreg == old(oreg)[..24] + BitsOf(b, 8)
    {
      oreg := oreg[..24] + BitsOf(b, 8);
    }

    method CommandIn()
      requires Valid()
      modifies this
      ensures Valid() && State() == OnCommand(old(State()))
    {
      hide BitsOf, Val, Zeros;
      var status := 0x1c + (if wel then 2 else 0) + (if wip then 1 else 0);
      var ready := wel && !wip;
      var op := ByteOf(ireg[24..]);
      Load(if op == 0x05 then status else 0xa5);
      match op {
        case 0x00 => state := Idle;
        case 0x02 => state := if ready then PageProgram else Invalid;
        case 0x03 => state := SlowRead;
        case 0x04 => state, wel := Idle, false;
        case 0x05 => state := Rdsr;
        case 0x06 => state, wel := Idle, true;
        case 0xd8 => state := if ready then SectorErase else Invalid;
        case 0xff => state := Idle;
        case _ => state := Lost;
      }
    }

    method Fetch() returns (b: byte)
      requires Valid()
      modifies this`addr
      ensures b == ReadByte(mem[..], old(addr)) && addr == old(addr) + 1
    {
      b := if addr < mem.Length then mem[addr] else 0xff;
      addr := addr + 1;
    }

    method ReadIn(a: nat)
      requires Valid() && state == SlowRead && a == State().Address()
      modifies this`addr, this`oreg
      ensures State() == OnByte(old(State()))
    {
      if count == 32 {
        addr := a;
        var b := Fetch();
        Load(b);
      } else if count >= 40 && !wip {
        var b := Fetch();
        Load(b);
      } else {
        oreg := Zeros(32);
      }
    }

    method ProgramIn(a: nat)
      requires Valid() && state == PageProgram && a == State().Address()
      modifies this`addr, this`oreg, pmem
      ensures State() == OnByte(old(State()))
    {
      hide BitsOf, ByteOf, Val, Zeros, PageOf, BlankPage;
      Load(0);
      if count == 32 {
        addr := a;
        BlankBuffer();
      } else if count >= 40 {
        KeepByte(ByteOf(ireg[24..]));
      }
    }

    method KeepByte(b: byte)
      requires Valid()
      modifies this`addr, pmem
      ensures pmem[..] == old(pmem[..])[old(addr) % 256 := b]
      ensures addr == PageOf(old(addr)) + (old(addr) + 1) % 256
    {
      pmem[addr % 256] := b;
      addr := PageOf(addr) + (addr + 1) % 256;
    }

    method EraseIn(a: nat)
      requires Valid() && state == SectorErase && a == State().Address()
      modifies this`addr, this`oreg, this`state
      ensures State() == OnByte(old(State()))
    {
      Load(0);
      if count == 32 {
        if a - a % 0x4000 < ERASE_LIMIT {
          addr := a - a % 0x4000;
        } else {
          state := Lost;
        }
      }
    }

    method StatusIn()
      requires Valid() && !state.SlowRead? && !state.PageProgram? && !state.SectorErase?
      modifies this`oreg
      ensures State() == OnByte(old(State()))
    {
      if state == Rdsr {
        Load(0x1c + (if wel then 2 else 0) + (if wip then 1 else 0));
      } else {
        Load(0);
      }
    }

    method ByteIn()
      requires Valid()
      modifies this, pmem
      ensures Valid() && State() == OnByte(old(State()))
    {
      ValBound(ireg[8..]);
      Pow2Constants();
      var a := Val(ireg[8..]);
      hide OnByte;
      match state {
        case SlowRead => ReadIn(a);
        case PageProgram => ProgramIn(a);
        case SectorErase => EraseIn(a);
        case _ => StatusIn();
      }
    }

    method ShiftIn(dat: bool)
      requires Valid()
      modifies this`ireg, this`oreg, this`count
      ensures Valid() && State() == TakeIn(old(State()), [dat])
    {
      ireg, oreg, count := ireg[1..] + [dat], oreg[1..] + Zeros(1), Count(count + 1);
    }

    method Shift(dat: bool)
      requires Valid()
      modifies this, pmem
      ensures Valid() && State() == FallingEdge(old(State()), dat)
    {
      hide OnCommand, OnByte, TakeIn;
      if state == Lost {
        return;
      }
      ShiftIn(dat);
      if count == 8 {
        CommandIn();
      } else if count % 8 == 0 && count != 0 {
        ByteIn();
      }
    }

    /** FLASHSIM::operator() */
    method Call(csn: bool, sck: bool, dat: bool) returns (miso: bool)
      requires Valid()
      modifies this, mem, pmem
      ensures Valid() && State() == Operator(old(State()), csn, sck, dat)
      ensures miso == Miso(State(), csn)
    {
      Timer();
      if csn {
        Deselected();
        miso := false;
      } else {
        if lastSck && !sck {
          Shift(dat);
        }
        lastSck := sck;
        miso := oreg[23];
      }
    }

    /** FLASHSIM::simtick() */
    method OnClock(csn: bool, sck: bool, dat: bool) returns (miso: bool)
      requires Valid()
      modifies this, mem, pmem
      ensures Valid() && State() == SimTick(old(State()), csn, old(ckdelay), dat) && ckdelay == sck
      ensures miso == Miso(State(), csn)
    {
      var lclsck := ckdelay;
      miso := Call(csn, !lclsck, dat);
      miso := Call(csn, true, dat);
      ckdelay := sck;
    }
  }
}
