/** The flash controller of rtl/spixpress.v with OPT_PIPE and OPT_CFG set: its registers,
    one clock of it as a function, and the same clock as a method on the registers. */
module SpiXpress {
  import opened Bits

  /** The bus side of one clock: i_reset, i_wb_cyc, i_wb_stb, i_cfg_stb, i_wb_we,
      i_wb_addr and i_wb_data. */
  datatype Input = Input(
    reset: bool, cyc: bool, stb: bool, cfgStb: bool, we: bool, addr: nat, data: nat)
  {
    /** i_wb_data[8]: give the chip select back. */
    predicate Release() {
      data / 256 % 2 == 1
    }

    function Payload(): byte {
      data % 256
    }
  }

  type pipeline = bits: seq<bool> | |bits| == 33 witness Zeros(33)

  datatype Regs = Regs(
    user: bool, pipe: pipeline, delay: nat, actualSck: bool, stall: bool, ack: bool,
    data: word, csn: bool, sck: bool, nextAddr: nat)
  {
    predicate Mosi() {
      pipe[0]
    }

    predicate BusRequest(i: Input) {
      i.stb && !stall && !i.we && !user
    }

    predicate NextRequest(i: Input) {
      i.stb && !i.we && !user && i.addr == nextAddr
    }

    predicate ConfigWrite(i: Input) {
      i.cfgStb && !stall && i.we
    }

    predicate UserRequest(i: Input) {
      ConfigWrite(i) && !i.Release()
    }

    /** Any request, of whatever kind, enters the core on this clock. */
    predicate Accepts(i: Input) {
      (i.stb || i.cfgStb) && !stall
    }
  }

  /** An address one word on, in `aw` bits. */
  function Succ(aw: nat, addr: nat): nat {
    if addr + 1 == Pow2(aw) then 0 else addr + 1
  }

  const READ: byte := 0x03

  /** o_wb_data in configuration mode: bit 12 set, then whatever came off the wire. */
  function UserData(low: seq<bool>): word
    requires |low| == 8
  {
    Zeros(19) + [true] + Zeros(4) + low
  }

  function NextDelay(r: Regs, i: Input): nat {
    if i.reset || !i.cyc then 0
    else if r.BusRequest(i) then (if r.csn then 65 else 32)
    else if r.UserRequest(i) then 9
    else if r.delay != 0 then r.delay - 1
    else 0
  }

  function NextPipe(r: Regs, i: Input): pipeline {
    if !r.stall then
      [false] + BitsOf(if i.stb then READ else i.Payload(), 8) + BitsOf(4 * i.addr, 24)
    else
      r.pipe[1..] + [false]
  }

  predicate NextAck(r: Regs, i: Input) {
    if i.reset then false
    else if r.delay == 1 then i.cyc
    else if i.stb && !r.stall && !r.BusRequest(i) then true
    else i.cfgStb && !r.stall && !r.UserRequest(i)
  }

  predicate NextUser(r: Regs, i: Input) {
    if i.reset then false
    else if r.ConfigWrite(i) then !i.Release()
    else r.user
  }

  function NextData(r: Regs, miso: bool): word {
    if r.actualSck then
      if r.user then UserData(r.data[25..] + [miso]) else r.data[1..] + [miso]
    else if r.user then UserData(r.data[24..])
    else r.data
  }

  predicate NextCsn(r: Regs, i: Input) {
    if i.reset then true
    else if !i.cyc && !r.user then true
    else if r.BusRequest(i) then false
    else if r.ConfigWrite(i) then i.Release()
    else if r.user then false
    else if r.delay == 1 then true
    else r.csn
  }

  predicate NextSck(r: Regs, i: Input) {
    if i.reset then false
    else if r.BusRequest(i) || r.UserRequest(i) then true
    else if i.cyc && r.delay > 2 then true
    else r.NextRequest(i) && r.delay == 2
  }

  predicate NextStall(r: Regs, i: Input) {
    if i.reset || !i.cyc then false
    else if r.BusRequest(i) || r.UserRequest(i) then true
    else if r.NextRequest(i) && r.delay == 2 then false
    else r.delay > 1
  }

  /** One rising clock edge; every register reads the old state. */
  function Next(aw: nat, r: Regs, i: Input, miso: bool): Regs {
    Regs(
      user := NextUser(r, i),
      pipe := NextPipe(r, i),
      delay := NextDelay(r, i),
      actualSck := !i.reset && i.cyc && r.sck,
      stall := NextStall(r, i),
      ack := NextAck(r, i),
      data := NextData(r, miso),
      csn := NextCsn(r, i),
      sck := NextSck(r, i),
      nextAddr := if !r.stall then Succ(aw, i.addr) else r.nextAddr)
  }

  /** The power-on values; registers without one are left to the caller. */
  predicate PowerOn(r: Regs) {
    !r.user && r.delay == 0 && !r.actualSck && !r.stall && !r.ack && r.csn && !r.sck
  }

  /** The registers themselves. */
  class Controller {
    const aw: nat
    var user: bool
    var pipe: pipeline
    var delay: nat
    var actualSck: bool
    var stall: bool
    var ack: bool
    var data: word
    var csn: bool
    var sck: bool
    var nextAddr: nat

    function Registers(): Regs
      reads this
    {
      Regs(user, pipe, delay, actualSck, stall, ack, data, csn, sck, nextAddr)
    }

    constructor (aw: nat)
      ensures this.aw == aw && PowerOn(Registers())
    {
      this.aw := aw;
      user, delay, actualSck, stall, ack, csn, sck := false, 0, false, false, false, true, false;
      pipe, data, nextAddr := Zeros(33), Zeros(32), 0;
    }

    // One method for each group of always blocks: what it is about to load.

    method AckDelay(i: Input) returns (delay': nat)
      ensures delay' == NextDelay(Registers(), i)
    {
      delay' := delay;
      if i.reset || !i.cyc {
        delay' := 0;
      } else if i.stb && !stall && !i.we && !user {
        delay' := if csn then 65 else 32;
      } else if i.cfgStb && !stall && i.we && !i.Release() {
        delay' := 9;
      } else if delay != 0 {
        delay' := delay - 1;
      }
    }

    method Shifters(i: Input, miso: bool) returns (pipe': pipeline, data': word)
      ensures pipe' == NextPipe(Registers(), i) && data' == NextData(Registers(), miso)
    {
      if !stall {
        var instruction := if i.stb then READ else i.Payload();
        pipe' := [false] + BitsOf(instruction, 8) + BitsOf(4 * i.addr, 24);
      } else {
        pipe' := pipe[1..] + [false];
      }
      data' := data;
      if actualSck {
        data' := if user then UserData(data[25..] + [miso]) else data[1..] + [miso];
      } else if user {
        data' := UserData(data[24..]);
      }
    }

    method AckAndMode(i: Input) returns (ack': bool, user': bool)
      ensures ack' == NextAck(Registers(), i) && user' == NextUser(Registers(), i)
    {
      ack', user' := false, user;
      if i.reset {
        user' := false;
      } else {
        if delay == 1 {
          ack' := i.cyc;
        } else if i.stb && !stall && (i.we || user) {
          ack' := true;
        } else if i.cfgStb && !stall && (!i.we || i.Release()) {
          ack' := true;
        }
        if i.cfgStb && !stall && i.we {
          user' := !i.Release();
        }
      }
    }

    method SelectAndClock(i: Input) returns (csn': bool, sck': bool, stall': bool)
      ensures csn' == NextCsn(Registers(), i) && sck' == NextSck(Registers(), i)
      ensures stall' == NextStall(Registers(), i)
    {
      csn', sck', stall' := csn, false, false;
      var busRequest := i.stb && !stall && !i.we && !user;
      var configWrite := i.cfgStb && !stall && i.we;
      var userRequest := configWrite && !i.Release();
      var carryOn := i.stb && !i.we && !user && i.addr == nextAddr && delay == 2;
      if i.reset || (!i.cyc && !user) {
        csn' := true;
      } else if busRequest {
        csn' := false;
      } else if configWrite {
        csn' := i.Release();
      } else if user {
        csn' := false;
      } else if delay == 1 {
        csn' := true;
      }
      if !i.reset {
        sck' := busRequest || userRequest || (i.cyc && delay > 2) || carryOn;
        if i.cyc {
          stall' := busRequest || userRequest || (delay > 1 && !carryOn);
        }
      }
    }

    method Clock(i: Input, miso: bool)
      modifies this
      ensures Registers() == Next(aw, old(Registers()), i, miso)
    {
      var delay' := AckDelay(i);
      var pipe', data' := Shifters(i, miso);
      var ack', user' := AckAndMode(i);
      var csn', sck', stall' := SelectAndClock(i);
      var nextAddr' := nextAddr;
      if !stall {
        nextAddr' := Succ(aw, i.addr);
      }
      Load(Regs(user', pipe', delay', !i.reset && i.cyc && sck, stall', ack', data', csn', sck', nextAddr'));
    }

    /** Every register takes its new value at once. */
    method Load(r: Regs)
      modifies this
      ensures Registers() == r
    {
      user, pipe, delay, actualSck := r.user, r.pipe, r.delay, r.actualSck;
      stall, ack, data, csn, sck, nextAddr := r.stall, r.ack, r.data, r.csn, r.sck, r.nextAddr;
    }
  }
}
