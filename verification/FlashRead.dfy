/** What the flash puts on the wire in answer to a read command. */
module FlashRead {
  import opened Bits
  import opened FlashDevice

  /** The 32 bits of a read command: the instruction and a 24-bit byte address. */
  function ReadCommand(line: nat): word {
    BitsOf(0x03, 8) + BitsOf(4 * line, 24)
  }

  /** The big-endian word at a word address. */
  function WordAt(mem: seq<byte>, line: nat): word
    requires 4 * line + 3 < |mem|
  {
    BitsOf(mem[4 * line], 8) + BitsOf(mem[4 * line + 1], 8)
    + BitsOf(mem[4 * line + 2], 8) + BitsOf(mem[4 * line + 3], 8)
  }

  /** The device `k` bits into a read of `line`, 32 or more. */
  predicate Reading(g: Flash, mem: seq<byte>, line: nat, k: nat) {
    && 32 <= k
    && g.state.SlowRead? && !g.wip && g.mem == mem && g.count == k
    && g.addr == 4 * line + (k - 32) / 8 + 1
    && g.oreg[24..] == BitsOf(ReadByte(mem, g.addr - 1), 8)[(k - 32) % 8..] + Zeros((k - 32) % 8)
  }

  /** The device `n` bits into the address phase of the command `c`. */
  ghost predicate Taking(g: Flash, f: Flash, c: word, n: nat)
  {
    && n <= 32
    && g.state.SlowRead? && g.count == n && g.ireg == Zeros(32 - n) + c[..n]
    && g.mem == f.mem && g.wip == f.wip
  }

  lemma AfterInstruction(f: Flash, line: nat)
    requires Standby(f) && !f.state.Lost?
    ensures Taking(Shifts(f, ReadCommand(line)[..8]), f, ReadCommand(line), 8)
  {
    var bits := ReadCommand(line)[..8];
    EightShifts(f, bits);
    var s := TakeIn(f, bits);
    assert s.ireg == Zeros(24) + bits;
    assert bits == BitsOf(0x03, 8);
    Pow2Constants();
    ValOfBits(0x03, 8);
    assert s.ireg[24..] == bits;
    assert s.LastByte() == 0x03;
  }

  lemma AddressShift(g: Flash, bits: seq<bool>)
    requires g.state.SlowRead? && (g.count == 8 || g.count == 16) && |bits| == 8
    ensures var h := Shifts(g, bits);
      h.state.SlowRead? && h.count == g.count + 8 && h.ireg == g.ireg[8..] + bits
      && h.mem == g.mem && h.wip == g.wip
  {
    EightShifts(g, bits);
  }

  lemma SliceOn(c: word, n: nat)
    requires n <= 24
    ensures c[..n] + c[n..n + 8] == c[..n + 8]
    ensures (Zeros(32 - n) + c[..n])[8..] + c[n..n + 8] == Zeros(24 - n) + c[..n + 8]
  {
    assert (Zeros(32 - n) + c[..n])[8..] == Zeros(24 - n) + c[..n];
  }

  /** One more byte of the address. */
  lemma AddressByte(f: Flash, c: word, n: nat)
    requires (n == 8 || n == 16) && Taking(Shifts(f, c[..n]), f, c, n)
    ensures Taking(Shifts(f, c[..n + 8]), f, c, n + 8)
  {
    SliceOn(c, n);
    ShiftsSplit(f, c[..n], c[n..n + 8]);
    AddressShift(Shifts(f, c[..n]), c[n..n + 8]);
  }

  lemma LastAddressByte(g: Flash, bits: seq<bool>, line: nat)
    requires g.state.SlowRead? && g.count == 24 && !g.wip && |bits| == 8
    requires g.ireg[8..] + bits == ReadCommand(line) && 4 * line < SIZE
    ensures Reading(Shifts(g, bits), g.mem, line, 32)
  {
    hide Shifts, Dispatch, BitsOf, ReadByte;
    EightShifts(g, bits);
    AddressIn(TakeIn(g, bits), line);
  }

  lemma AddressIs(s: Flash, line: nat)
    requires s.ireg == ReadCommand(line) && 4 * line < SIZE
    ensures s.Address() == 4 * line
  {
    hide BitsOf, Val;
    Pow2Constants();
    ValOfBits(4 * line, 24);
    assert s.ireg[8..] == BitsOf(4 * line, 24);
  }

  /** The whole address is in: the first byte is fetched. */
  lemma AddressIn(s: Flash, line: nat)
    requires s.state.SlowRead? && s.count == 32 && !s.wip && s.ireg == ReadCommand(line) && 4 * line < SIZE
    ensures Reading(Dispatch(s), s.mem, line, 32)
  {
    hide BitsOf, ReadByte, ReadCommand, OnCommand;
    AddressIs(s, line);
    ByteReady(ReadByte(s.mem, 4 * line));
  }

  lemma ByteReady(b: byte)
    ensures BitsOf(b, 8)[0..] + Zeros(0) == BitsOf(b, 8)
  {
    hide BitsOf;
  }

  lemma AfterCommand(f: Flash, line: nat)
    requires Standby(f) && !f.state.Lost? && !f.wip && 4 * line < SIZE
    ensures Reading(Shifts(f, ReadCommand(line)), f.mem, line, 32)
  {
    var c := ReadCommand(line);
    AfterInstruction(f, line);
    AddressByte(f, c, 8);
    AddressByte(f, c, 16);
    ShiftsSplit(f, c[..24], c[24..]);
    assert c[..24] + c[24..] == c;
    assert (Zeros(8) + c[..24])[8..] + c[24..] == c;
    LastAddressByte(Shifts(f, c[..24]), c[24..], line);
  }

  /** Within a byte, one more bit of it moves up to the output. */
  lemma NextBit(g: Flash, mem: seq<byte>, line: nat, k: nat, mosi: bool)
    requires Reading(g, mem, line, k) && k % 8 != 7 && k + 1 < 0x1_0000_0000
    ensures Reading(FallingEdge(g, mosi), mem, line, k + 1)
  {
    hide BitsOf, ReadByte, Dispatch;
    NothingToDecode(TakeIn(g, [mosi]));
    BitUp(BitsOf(ReadByte(mem, g.addr - 1), 8), g.oreg, k);
  }

  lemma BitUp(b: octet, oreg: word, k: nat)
    requires 32 <= k && k % 8 != 7 && oreg[24..] == b[(k - 32) % 8..] + Zeros((k - 32) % 8)
    ensures (k + 1 - 32) / 8 == (k - 32) / 8
    ensures (oreg[1..] + Zeros(1))[24..] == b[(k + 1 - 32) % 8..] + Zeros((k + 1 - 32) % 8)
  {
    var r := (k - 32) % 8;
    assert (k + 1 - 32) % 8 == r + 1;
    assert (oreg[1..] + Zeros(1))[24..] == oreg[24..][1..] + Zeros(1);
    assert b[r..][1..] == b[r + 1..];
  }

  /** With its last bit the next byte is fetched. */
  lemma NextByte(g: Flash, mem: seq<byte>, line: nat, k: nat, mosi: bool)
    requires Reading(g, mem, line, k) && k % 8 == 7 && k + 1 < 0x1_0000_0000
    ensures Reading(FallingEdge(g, mosi), mem, line, k + 1)
  {
    hide BitsOf, ReadByte, OnCommand;
    Places(k);
    ByteReady(ReadByte(mem, g.addr));
  }

  lemma Places(k: nat)
    requires 32 <= k && k % 8 == 7
    ensures (k + 1 - 32) % 8 == 0 && (k + 1 - 32) / 8 == (k - 32) / 8 + 1 && k + 1 >= 40 && (k + 1) % 8 == 0
  {
  }

  lemma {:induction false} KeepsReading(f: Flash, sent: seq<bool>, line: nat)
    requires Standby(f) && !f.state.Lost? && !f.wip && 4 * line < SIZE
    requires 32 <= |sent| < 0x1_0000_0000 && sent[..32] == ReadCommand(line)
    ensures Reading(Shifts(f, sent), f.mem, line, |sent|)
  {
    if |sent| == 32 {
      assert sent == sent[..32];
      AfterCommand(f, line);
    } else {
      var k := |sent| - 1;
      assert sent[..k][..32] == sent[..32];
      KeepsReading(f, sent[..k], line);
      if k % 8 == 7 {
        NextByte(Shifts(f, sent[..k]), f.mem, line, k, sent[k]);
      } else {
        NextBit(Shifts(f, sent[..k]), f.mem, line, k, sent[k]);
      }
    }
  }

  /** The bit that answers bit `k` of the stream. */
  lemma AnswerBit(f: Flash, sent: seq<bool>, line: nat, k: nat)
    requires Standby(f) && !f.state.Lost? && !f.wip && 4 * line < SIZE
    requires 32 <= k < |sent| < 0x1_0000_0000 && sent[..32] == ReadCommand(line)
    ensures Outputs(f, sent)[k] == BitsOf(ReadByte(f.mem, 4 * line + (k - 32) / 8), 8)[(k - 32) % 8]
  {
    hide BitsOf, ReadByte, ReadCommand, Outputs, Dispatch;
    OutputAt(f, sent, k);
    assert sent[..k][..32] == sent[..32];
    KeepsReading(f, sent[..k], line);
    assert sent[..k + 1][..k] == sent[..k];
    EdgeAnswers(Shifts(f, sent[..k]), f.mem, line, k, sent[k]);
  }

  /** The bit on top of the byte is on the wire after the next edge. */
  lemma EdgeAnswers(g: Flash, mem: seq<byte>, line: nat, k: nat, mosi: bool)
    requires Reading(g, mem, line, k) && k + 1 < 0x1_0000_0000
    ensures Miso(FallingEdge(g, mosi), false) == BitsOf(ReadByte(mem, 4 * line + (k - 32) / 8), 8)[(k - 32) % 8]
  {
    hide BitsOf, ReadByte, Dispatch;
    var s := TakeIn(g, [mosi]);
    assert s.oreg[23] == g.oreg[24..][0];
    AnswerBitKept(s);
  }

  /** Decoding replaces at most the low byte of the output register, unless it clears it. */
  lemma AnswerBitKept(s: Flash)
    requires s.state.SlowRead? && s.count > 32 && !s.wip
    ensures Dispatch(s).oreg[23] == s.oreg[23]
  {
  }

  lemma AnswerWordBit(f: Flash, sent: seq<bool>, first: nat, line: nat, t: nat)
    requires Standby(f) && !f.state.Lost? && !f.wip && |f.mem| == SIZE
    requires first <= line && 4 * line + 3 < SIZE && t < 32
    requires |sent| == 64 + 32 * (line - first) && sent[..32] == ReadCommand(first)
    ensures Outputs(f, sent)[|sent| - 32 + t] == WordAt(f.mem, line)[t]
  {
    var k := |sent| - 32 + t;
    assert k - 32 == 8 * (4 * (line - first) + t / 8) + t % 8;
    DivModUnique(k - 32, 8, 4 * (line - first) + t / 8, t % 8);
    AnswerBit(f, sent, first, k);
    WordBit(f.mem, line, t);
  }

  /** After the command, the n-th group of 32 bits is the n-th word. */
  lemma AnswersWord(f: Flash, sent: seq<bool>, first: nat, line: nat)
    requires Standby(f) && !f.state.Lost? && !f.wip && |f.mem| == SIZE
    requires first <= line && 4 * line + 3 < SIZE
    requires |sent| == 64 + 32 * (line - first) && sent[..32] == ReadCommand(first)
    ensures Outputs(f, sent)[|sent| - 32..] == WordAt(f.mem, line)
  {
    forall t | 0 <= t < 32
      ensures Outputs(f, sent)[|sent| - 32 + t] == WordAt(f.mem, line)[t]
    {
      AnswerWordBit(f, sent, first, line, t);
    }
  }

  lemma WordBit(mem: seq<byte>, line: nat, t: nat)
    requires 4 * line + 3 < |mem| && t < 32
    ensures WordAt(mem, line)[t] == BitsOf(mem[4 * line + t / 8], 8)[t % 8]
  {
    var q, r := t / 8, t % 8;
    assert t == 8 * q + r;
    if q == 0 {
    } else if q == 1 {
    } else if q == 2 {
    } else {
      assert q == 3;
    }
  }
}
