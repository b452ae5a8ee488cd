/** The three bit-serial checksum circuits of rtl/sdspi.v. */
module SdEngine {
  import opened Bits
  import opened SdCrc
  import opened SdSim

  /** A byte offered to a circuit, or a clock without one. */
  datatype Tick = Tick(stb: bool, data: octet)

  /** fifo_wr_crc_reg and its count, or fifo_rd_crc_reg and its count. */
  datatype Block = Block(reg: seq<bool>, count: nat) {
    predicate Sized() {
      |reg| == 16
    }
  }

  /** r_cmd_crc, r_cmd_crc_cnt and r_cmd_crc_ff. */
  datatype Command = Command(reg: octet, count: nat, ff: bool)

  function NextBlock(b: Block, t: Tick): Block
    requires b.Sized()
  {
    if t.stb then Block(Xor(b.reg, Aligned(t.data, 16)), 8)
    else if b.count != 0 then Block(Step(TAPS16, b.reg), b.count - 1)
    else b
  }

  /** The write side, which keeps its count over an idle spell. */
  function NextWrite(b: Block, active: bool, t: Tick): Block
    requires b.Sized()
  {
    if !active then b.(reg := Zeros(16)) else NextBlock(b, t)
  }

  /** The read side, which does not. */
  function NextRead(b: Block, active: bool, t: Tick): Block
    requires b.Sized()
  {
    if !active then Block(Zeros(16), 0) else NextBlock(b, t)
  }

  function NextCommand(c: Command, active: bool, t: Tick): Command {
    if !active then Command(Zeros(8), 15, false)
    else if c.count < 8 then
      Command(Step(TAPS7, c.reg), if c.count == 0 then 15 else c.count - 1, c.ff || t.stb)
    else if t.stb || c.ff then Command(Xor(c.reg, t.data), 7, false)
    else c
  }

  // ---- Runs ------------------------------------------------------------------------------------

  function Fed(ticks: seq<Tick>): seq<octet> {
    if |ticks| == 0 then []
    else
      var t := ticks[|ticks| - 1];
      Fed(ticks[..|ticks| - 1]) + (if t.stb then [t.data] else [])
  }

  /** Clocks since the last byte, or at least eight. */
  function Since(ticks: seq<Tick>): nat {
    if |ticks| == 0 then 8 else if ticks[|ticks| - 1].stb then 0 else Since(ticks[..|ticks| - 1]) + 1
  }

  /** Bytes come at least nine clocks apart. */
  ghost predicate Apart(ticks: seq<Tick>)
  {
    forall i :: 0 <= i < |ticks| && ticks[i].stb ==> Since(ticks[..i]) >= 8
  }

  /** With the circuit active throughout. */
  function RunBlock(b: Block, ticks: seq<Tick>): (c: Block)
    requires b.Sized()
    ensures c.Sized()
  {
    if |ticks| == 0 then b else NextBlock(RunBlock(b, ticks[..|ticks| - 1]), ticks[|ticks| - 1])
  }

  function RunCommand(c: Command, ticks: seq<Tick>): Command {
    if |ticks| == 0 then c else NextCommand(RunCommand(c, ticks[..|ticks| - 1]), true, ticks[|ticks| - 1])
  }

  /** A checksum with its last byte `n` steps in. */
  ghost predicate Partial(taps: seq<bool>, reg: seq<bool>, bytes: seq<octet>, n: nat)
  {
    && |taps| == |reg| >= 8 && |bytes| > 0
    && reg == Steps(taps, Xor(Crc(taps, bytes[..|bytes| - 1]), Aligned(bytes[|bytes| - 1], |taps|)), n)
  }

  lemma PartialStarts(taps: seq<bool>, reg: seq<bool>, bytes: seq<octet>, b: octet)
    requires |taps| >= 8 && reg == Crc(taps, bytes)
    ensures Partial(taps, Xor(reg, Aligned(b, |taps|)), bytes + [b], 0)
  {
    assert (bytes + [b])[..|bytes|] == bytes;
  }

  lemma PartialStep(taps: seq<bool>, reg: seq<bool>, bytes: seq<octet>, n: nat)
    requires Partial(taps, reg, bytes, n)
    ensures Partial(taps, Step(taps, reg), bytes, n + 1)
  {
  }

  lemma PartialEnds(taps: seq<bool>, reg: seq<bool>, bytes: seq<octet>)
    requires Partial(taps, reg, bytes, 8)
    ensures reg == Crc(taps, bytes)
  {
  }

  /** The circuit's state after a run. */
  ghost predicate Following(taps: seq<bool>, reg: seq<bool>, bytes: seq<octet>, since: nat)
  {
    |taps| >= 8 && if since < 8 then Partial(taps, reg, bytes, since) else reg == Crc(taps, bytes)
  }

  lemma FollowingByte(taps: seq<bool>, reg: seq<bool>, bytes: seq<octet>, since: nat, b: octet)
    requires Following(taps, reg, bytes, since) && since >= 8
    ensures |reg| == |taps| && Following(taps, Xor(reg, Aligned(b, |taps|)), bytes + [b], 0)
  {
    hide Crc, Partial;
    PartialStarts(taps, reg, bytes, b);
  }

  lemma FollowingStep(taps: seq<bool>, reg: seq<bool>, bytes: seq<octet>, since: nat)
    requires Following(taps, reg, bytes, since) && since < 8
    ensures |reg| == |taps| && Following(taps, Step(taps, reg), bytes, since + 1)
  {
    hide Crc, Step;
    PartialStep(taps, reg, bytes, since);
    if since == 7 {
      PartialEnds(taps, Step(taps, reg), bytes);
    }
  }

  /** A register that holds nothing may be stepped at will. */
  lemma StepZeros(taps: seq<bool>)
    requires |taps| > 0
    ensures Step(taps, Zeros(|taps|)) == Zeros(|taps|)
  {
  }

  ghost predicate BlockFollows(b: Block, bytes: seq<octet>, since: nat)
  {
    && Following(TAPS16, b.reg, bytes, since)
    && if bytes == [] then since >= 8 && b.reg == Zeros(16) else b.count == if since < 8 then 8 - since else 0
  }

  lemma BlockStep(b: Block, t: Tick, bytes: seq<octet>, since: nat)
    requires b.Sized() && BlockFollows(b, bytes, since) && (t.stb ==> since >= 8)
    ensures BlockFollows(NextBlock(b, t), if t.stb then bytes + [t.data] else bytes, if t.stb then 0 else since + 1)
  {
    hide Following, Step, Aligned, Xor;
    if t.stb {
      FollowingByte(TAPS16, b.reg, bytes, since, t.data);
    } else if since < 8 {
      FollowingStep(TAPS16, b.reg, bytes, since);
    } else {
      BlockRests(b, bytes, since);
    }
  }

  lemma BlockRests(b: Block, bytes: seq<octet>, since: nat)
    requires BlockFollows(b, bytes, since) && since >= 8
    ensures Following(TAPS16, b.reg, bytes, since + 1)
    ensures bytes == [] ==> Step(TAPS16, b.reg) == b.reg
  {
    StepZeros(TAPS16);
  }

  /** From idle, whatever the count was left at. */
  lemma {:induction false} RunBlockFollows(b: Block, ticks: seq<Tick>)
    requires b.reg == Zeros(16) && Apart(ticks)
    ensures BlockFollows(RunBlock(b, ticks), Fed(ticks), Since(ticks))
  {
    hide NextBlock, BlockFollows;
    if |ticks| == 0 {
      BlockIdle(b);
    } else {
      var before, t := ticks[..|ticks| - 1], ticks[|ticks| - 1];
      ApartBefore(ticks);
      RunBlockFollows(b, before);
      BlockStep(RunBlock(b, before), t, Fed(before), Since(before));
      assert Fed(before) + [] == Fed(before);
    }
  }

  lemma ApartBefore(ticks: seq<Tick>)
    requires Apart(ticks) && |ticks| > 0
    ensures Apart(ticks[..|ticks| - 1])
    ensures ticks[|ticks| - 1].stb ==> Since(ticks[..|ticks| - 1]) >= 8
  {
    var before := ticks[..|ticks| - 1];
    forall i | 0 <= i < |before| && before[i].stb
      ensures Since(before[..i]) >= 8
    {
      assert before[..i] == ticks[..i];
    }
  }

  lemma BlockIdle(b: Block)
    requires b.reg == Zeros(16)
    ensures BlockFollows(b, [], 8)
  {
  }

  /** Eight clocks after the last byte the register holds blockcrc() of the bytes. */
  lemma SerialBlockCrc(b: Block, ticks: seq<Tick>)
    requires b.reg == Zeros(16) && Apart(ticks) && Since(ticks) >= 8
    ensures RunBlock(b, ticks).reg == Crc(TAPS16, Fed(ticks))
  {
    hide RunBlock, Crc;
    RunBlockFollows(b, ticks);
  }

  ghost predicate CommandFollows(c: Command, bytes: seq<octet>, since: nat)
  {
    && Following(TAPS7, c.reg, bytes, since) && !c.ff
    && c.count == if since < 8 then 7 - since else 15
  }

  lemma CommandStep(c: Command, t: Tick, bytes: seq<octet>, since: nat)
    requires CommandFollows(c, bytes, since) && (t.stb ==> since >= 8)
    ensures CommandFollows(NextCommand(c, true, t), if t.stb then bytes + [t.data] else bytes,
                           if t.stb then 0 else since + 1)
  {
    hide Following, Step, Xor;
    if t.stb {
      FollowingByte(TAPS7, c.reg, bytes, since, t.data);
      assert Aligned(t.data, 8) == t.data;
    } else if since < 8 {
      FollowingStep(TAPS7, c.reg, bytes, since);
    } else {
      Rests(TAPS7, c.reg, bytes, since);
    }
  }

  lemma Rests(taps: seq<bool>, reg: seq<bool>, bytes: seq<octet>, since: nat)
    requires Following(taps, reg, bytes, since) && since >= 8
    ensures Following(taps, reg, bytes, since + 1)
  {
  }

  lemma {:induction false} RunCommandFollows(ticks: seq<Tick>)
    requires Apart(ticks)
    ensures CommandFollows(RunCommand(Command(Zeros(8), 15, false), ticks), Fed(ticks), Since(ticks))
  {
    hide NextCommand;
    if |ticks| == 0 {
    } else {
      var before, t := ticks[..|ticks| - 1], ticks[|ticks| - 1];
      ApartBefore(ticks);
      RunCommandFollows(before);
      CommandStep(RunCommand(Command(Zeros(8), 15, false), before), t, Fed(before), Since(before));
      assert Fed(before) + [] == Fed(before);
    }
  }

  /** cmd_crc, the register with the end bit in its lowest place. */
  function Output(c: Command): octet {
    c.reg[..7] + [true]
  }

  /** Eight clocks after the fifth byte of a command the circuit gives cmdcrc() of the five. */
  lemma SerialCmdCrc(ticks: seq<Tick>)
    requires Apart(ticks) && Since(ticks) >= 8
    ensures Output(RunCommand(Command(Zeros(8), 15, false), ticks)) == Crc(TAPS7, Fed(ticks))[..7] + [true]
  {
    hide RunCommand, Crc;
    RunCommandFollows(ticks);
  }

  // ---- Idle spells ------------------------------------------------------------------------------

  /** A clock of a circuit, which is active or not. */
  datatype Input = Input(active: bool, tick: Tick)

  function RunWrite(b: Block, inputs: seq<Input>): (c: Block)
    requires b.Sized()
    ensures c.Sized()
  {
    if |inputs| == 0 then b
    else
      var i := inputs[|inputs| - 1];
      NextWrite(RunWrite(b, inputs[..|inputs| - 1]), i.active, i.tick)
  }

  function RunRead(b: Block, inputs: seq<Input>): (c: Block)
    requires b.Sized()
    ensures c.Sized()
  {
    if |inputs| == 0 then b
    else
      var i := inputs[|inputs| - 1];
      NextRead(RunRead(b, inputs[..|inputs| - 1]), i.active, i.tick)
  }

  function RunCommands(c: Command, inputs: seq<Input>): Command {
    if |inputs| == 0 then c
    else
      var i := inputs[|inputs| - 1];
      NextCommand(RunCommands(c, inputs[..|inputs| - 1]), i.active, i.tick)
  }

  /** The clocks since the circuit was last inactive. */
  function Lately(inputs: seq<Input>): seq<Tick> {
    if |inputs| == 0 || !inputs[|inputs| - 1].active then []
    else Lately(inputs[..|inputs| - 1]) + [inputs[|inputs| - 1].tick]
  }

  /** It has been inactive at some time. */
  predicate Idled(inputs: seq<Input>) {
    |inputs| > 0 && (!inputs[|inputs| - 1].active || Idled(inputs[..|inputs| - 1]))
  }

  lemma LatelyOne(inputs: seq<Input>)
    requires |inputs| > 0 && inputs[|inputs| - 1].active
    ensures var now := Lately(inputs);
      |now| > 0 && now[..|now| - 1] == Lately(inputs[..|inputs| - 1]) && now[|now| - 1] == inputs[|inputs| - 1].tick
  {
  }

  lemma {:induction false} WriteLately(b: Block, inputs: seq<Input>) returns (start: Block)
    requires b.Sized() && Idled(inputs)
    ensures start.reg == Zeros(16) && RunWrite(b, inputs) == RunBlock(start, Lately(inputs))
  {
    hide NextBlock;
    var before, i := inputs[..|inputs| - 1], inputs[|inputs| - 1];
    if !i.active {
      start := RunWrite(b, inputs);
    } else {
      start := WriteLately(b, before);
      LatelyOne(inputs);
    }
  }

  lemma {:induction false} ReadLately(b: Block, inputs: seq<Input>)
    requires b.Sized() && Idled(inputs)
    ensures RunRead(b, inputs) == RunBlock(Block(Zeros(16), 0), Lately(inputs))
  {
    hide NextBlock;
    var before, i := inputs[..|inputs| - 1], inputs[|inputs| - 1];
    if i.active {
      ReadLately(b, before);
      LatelyOne(inputs);
    }
  }

  lemma {:induction false} CommandLately(c: Command, inputs: seq<Input>)
    requires Idled(inputs)
    ensures RunCommands(c, inputs) == RunCommand(Command(Zeros(8), 15, false), Lately(inputs))
  {
    var before, i := inputs[..|inputs| - 1], inputs[|inputs| - 1];
    if i.active {
      CommandLately(c, before);
      LatelyOne(inputs);
    }
  }

  /** From any state, whatever was fed before: once a block circuit has been inactive it holds, eight
      clocks after the last byte, the checksum of the bytes fed since. */
  lemma BlocksStartClear(b: Block, inputs: seq<Input>)
    requires b.Sized() && Idled(inputs) && Apart(Lately(inputs)) && Since(Lately(inputs)) >= 8
    ensures RunWrite(b, inputs).reg == Crc(TAPS16, Fed(Lately(inputs)))
    ensures RunRead(b, inputs).reg == Crc(TAPS16, Fed(Lately(inputs)))
  {
    hide RunWrite, RunRead, RunBlock, Crc;
    var start := WriteLately(b, inputs);
    ReadLately(b, inputs);
    SerialBlockCrc(start, Lately(inputs));
    SerialBlockCrc(Block(Zeros(16), 0), Lately(inputs));
  }

  /** And likewise the command circuit. */
  lemma CommandsStartClear(c: Command, inputs: seq<Input>)
    requires Idled(inputs) && Apart(Lately(inputs)) && Since(Lately(inputs)) >= 8
    ensures Output(RunCommands(c, inputs)) == Crc(TAPS7, Fed(Lately(inputs)))[..7] + [true]
  {
    hide RunCommands, RunCommand, Crc;
    CommandLately(c, inputs);
    SerialCmdCrc(Lately(inputs));
  }

  // ---- The registers ------------------------------------------------------------------------------

  class Engines {
    var wr: Block
    var rd: Block
    var cmd: Command

    ghost predicate Valid()
      reads this
    {
      wr.Sized() && rd.Sized()
    }

    constructor ()
      ensures Valid()
    {
      wr, rd, cmd := Block(Zeros(16), 0), Block(Zeros(16), 0), Command(Zeros(8), 15, false);
    }

    method ClockWrite(active: bool, t: Tick)
      requires Valid()
      modifies this`wr
      ensures Valid() && wr == NextWrite(old(wr), active, t)
    {
      if !active {
        wr := wr.(reg := Zeros(16));
      } else if t.stb {
        wr := Block(Xor(wr.reg[..8], t.data) + wr.reg[8..], 8);
        UpperByte(old(wr).reg, t.data);
      } else if wr.count != 0 {
        if wr.reg[0] {
          wr := Block(Xor(wr.reg[1..] + [false], TAPS16), wr.count - 1);
        } else {
          wr := Block(wr.reg[1..] + [false], wr.count - 1);
        }
        ShiftedIn(old(wr).reg);
      }
    }

    method ClockRead(active: bool, t: Tick)
      requires Valid()
      modifies this`rd
      ensures Valid() && rd == NextRead(old(rd), active, t)
    {
      if !active {
        rd := Block(Zeros(16), 0);
      } else if t.stb {
        rd := Block(Xor(rd.reg[..8], t.data) + rd.reg[8..], 8);
        UpperByte(old(rd).reg, t.data);
      } else if rd.count != 0 {
        if rd.reg[0] {
          rd := Block(Xor(rd.reg[1..] + [false], TAPS16), rd.count - 1);
        } else {
          rd := Block(rd.reg[1..] + [false], rd.count - 1);
        }
        ShiftedIn(old(rd).reg);
      }
    }

    method ClockCommand(active: bool, t: Tick)
      modifies this`cmd
      ensures cmd == NextCommand(old(cmd), active, t)
    {
      if !active {
        cmd := Command(Zeros(8), 15, false);
      } else if cmd.count < 8 {
        var reg' := if cmd.reg[0] then Xor(cmd.reg[1..] + [false], TAPS7) else cmd.reg[1..] + [false];
        ShiftedIn(cmd.reg);
        cmd := Command(reg', if cmd.count == 0 then 15 else cmd.count - 1, cmd.ff || t.stb);
      } else if t.stb || cmd.ff {
        cmd := Command(Xor(cmd.reg, t.data), 7, false);
      }
    }
  }

  lemma ShiftedIn(reg: seq<bool>)
    requires |reg| > 0
    ensures reg[1..] + [false] == Left(reg, 1)
  {
  }

  lemma UpperByte(reg: seq<bool>, b: octet)
    requires |reg| == 16
    ensures Xor(reg[..8], b) + reg[8..] == Xor(reg, Aligned(b, 16))
  {
  }
}
