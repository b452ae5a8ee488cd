/** The checksums SDSPISIM computes, sim/sdspisim.cpp. */
module SdSim {
  import opened Bits
  import opened SdCrc

  /** 0x12 and 0x1021. */
  const TAPS7: seq<bool> := [false, false, false, true, false, false, true, false]
  const TAPS16: seq<bool> := [false, false, false, true, false, false, false, false,
                              false, false, true, false, false, false, false, true]

  /** The accumulator is 32 bits wide and is not masked until the end; its low bits are the
      register all the same. */
  lemma LowStep(taps: bits, fill: word)
    requires 0 < |taps| <= 32
    ensures var k := 32 - |taps|;
      (if fill[k] then Xor(Left(fill, 1), Zeros(k) + taps) else Left(fill, 1))[k..] == Step(taps, fill[k..])
  {
    hide Xor, Left;
    LeftTail(fill, 32 - |taps|);
    XorTail(Left(fill, 1), taps);
  }

  lemma LeftTail(fill: word, k: nat)
    requires k < 32
    ensures Left(fill, 1)[k..] == Left(fill[k..], 1)
  {
  }

  lemma XorTail(fill: word, taps: bits)
    requires |taps| <= 32
    ensures var k := 32 - |taps|; Xor(fill, Zeros(k) + taps)[k..] == Xor(fill[k..], taps)
  {
  }

  lemma TakeOne<T>(s: seq<T>, i: nat)
    requires i < |s|
    ensures s[..i + 1] == s[..i] + [s[i]]
  {
  }

  lemma OneMoreByte(taps: bits, bytes: seq<octet>, i: nat)
    requires |taps| >= 8 && i < |bytes|
    ensures Crc(taps, bytes[..i + 1]) == Feed(taps, Crc(taps, bytes[..i]), bytes[i])
  {
    hide Crc, Feed;
    TakeOne(bytes, i);
    CrcOne(taps, bytes[..i], bytes[i]);
  }

  /** A char that may be signed, as an unsigned int. */
  function SignExtend(b: octet): word {
    seq(24, _ => b[0]) + b
  }

  lemma SignExtended(fill: word, b: octet)
    ensures Xor(fill, SignExtend(b))[24..] == Xor(fill[24..], Aligned(b, 8))
  {
  }

  lemma HighByte(fill: word, b: octet)
    ensures Xor(fill, Zeros(16) + b + Zeros(8))[16..] == Xor(fill[16..], Aligned(b, 16))
  {
  }

  /** The eight inner iterations. */
  method EightSteps(taps: bits, fill0: word) returns (fill: word)
    requires 0 < |taps| <= 32
    ensures fill[32 - |taps|..] == Steps(taps, fill0[32 - |taps|..], 8)
  {
    hide Step, Xor, Left;
    fill := fill0;
    var k := 32 - |taps|;
    for j := 0 to 8
      invariant fill[k..] == Steps(taps, fill0[k..], j)
    {
      LowStep(taps, fill);
      if fill[k] {
        fill := Xor(Left(fill, 1), Zeros(k) + taps);
      } else {
        fill := Left(fill, 1);
      }
    }
  }

  /** cmdcrc(): the CRC7 register, with the end bit in its lowest place. */
  method CmdCrc(buf: array<octet>, len: nat) returns (fill: word)
    requires len <= buf.Length
    ensures fill == Zeros(24) + Crc(TAPS7, buf[..len])[..7] + [true]
  {
    hide Steps, Crc, Xor, Aligned, SignExtend;
    fill := Zeros(32);
    NothingYet(TAPS7);
    for i := 0 to len
      invariant fill[24..] == Crc(TAPS7, buf[..len][..i])
    {
      OneMoreByte(TAPS7, buf[..len], i);
      SignExtended(fill, buf[i]);
      fill := Xor(fill, SignExtend(buf[i]));
      fill := EightSteps(TAPS7, fill);
    }
    assert buf[..len][..len] == buf[..len];
    fill := Zeros(24) + fill[24..31] + [true];
  }

  lemma NothingYet(taps: bits)
    requires 8 <= |taps| <= 32
    ensures Zeros(32)[32 - |taps|..] == Crc(taps, [])
  {
  }

  /** check_cmdcrc(): a command is good exactly when its sixth byte is the checksum of the other
      five and the end bit. */
  method CheckCmdCrc(buf: array<octet>) returns (ok: bool)
    requires buf.Length >= 6
    ensures ok <==> buf[5] == Crc(TAPS7, buf[..5])[..7] + [true]
  {
    hide Crc;
    var fill := CmdCrc(buf, 5);
    ok := fill == Zeros(24) + buf[5];
    assert fill[24..] == Crc(TAPS7, buf[..5])[..7] + [true];
    assert (Zeros(24) + buf[5])[24..] == buf[5];
  }

  /** blockcrc(). */
  method BlockCrc(buf: array<octet>, at: nat, len: nat) returns (fill: word)
    requires at + len <= buf.Length
    ensures fill == Zeros(16) + Crc(TAPS16, buf[at..at + len])
  {
    hide Steps, Crc, Xor, Aligned;
    fill := Zeros(32);
    NothingYet(TAPS16);
    for i := 0 to len
      invariant fill[16..] == Crc(TAPS16, buf[at..at + len][..i])
    {
      OneMoreByte(TAPS16, buf[at..at + len], i);
      HighByte(fill, buf[at + i]);
      fill := Xor(fill, Zeros(16) + buf[at + i] + Zeros(8));
      fill := EightSteps(TAPS16, fill);
    }
    assert buf[at..at + len][..len] == buf[at..at + len];
    fill := Zeros(16) + fill[16..];
  }

  /** add_block_crc(): the block with its checksum has checksum zero, and nothing else in the
      buffer changes. */
  method AddBlockCrc(len: nat, buf: array<octet>)
    requires len + 3 <= buf.Length
    modifies buf
    ensures buf[..len + 1] == old(buf[..len + 1]) && buf[len + 3..] == old(buf[len + 3..])
    ensures var crc := Crc(TAPS16, buf[1..len + 1]); buf[len + 1] == crc[..8] && buf[len + 2] == crc[8..]
    ensures Crc(TAPS16, buf[1..len + 3]) == Zeros(16)
  {
    hide Crc;
    ghost var message := buf[1..len + 1];
    var fill := BlockCrc(buf, 1, len);
    ghost var crc := Crc(TAPS16, message);
    buf[len + 1] := fill[16..24];
    buf[len + 2] := fill[24..32];
    assert fill[16..24] == crc[..8] && fill[24..32] == crc[8..];
    assert buf[1..len + 1] == message;
    assert buf[1..len + 3] == message + [crc[..8], crc[8..]];
    SelfCheck(TAPS16, message);
  }
}
