/** What write enable, page program, sector erase and status commands do to the flash, as
    whole strings of bytes between two deselections. */
module FlashProgram {
  import opened Bits
  import opened FlashDevice

  /** A 24-bit address as it is sent. */
  function AddressBytes(a: nat): (bytes: seq<byte>)
    ensures |bytes| == 3
  {
    [a / 0x1_0000 % 256, a / 256 % 256, a % 256]
  }

  lemma {:induction false} BitsOfJoin(q: nat, r: nat, high: nat, low: nat)
    requires r < Pow2(low)
    ensures BitsOf(Pow2(low) * q + r, high + low) == BitsOf(q, high) + BitsOf(r, low)
  {
    if low == 0 {
      assert BitsOf(q, high) == BitsOf(q, high) + BitsOf(r, 0);
    } else {
      BitsOfJoin(q, r / 2, high, low - 1);
      HalveSum(Pow2(low - 1), q, r);
    }
  }

  lemma HalveSum(p: nat, q: nat, r: nat)
    ensures (2 * p * q + r) / 2 == p * q + r / 2 && (2 * p * q + r) % 2 == r % 2
  {
    assert 2 * p * q == 2 * (p * q);
  }

  lemma AddressParts(a: nat) returns (high: nat, middle: nat, low: nat)
    requires a < SIZE
    ensures AddressBytes(a) == [high, middle, low]
    ensures high < 256 && middle < 256 && low < 256 && 256 * (256 * high + middle) + low == a
  {
    high, middle, low := a / 0x1_0000, a / 256 % 256, a % 256;
  }

  /** Three address bytes spell the address. */
  lemma AddressSpelled(a: nat)
    requires a < SIZE
    ensures var b := AddressBytes(a); BitsOf(b[0], 8) + BitsOf(b[1], 8) + BitsOf(b[2], 8) == BitsOf(a, 24)
  {
    hide BitsOf, AddressBytes;
    var high, middle, low := AddressParts(a);
    assert Pow2(8) == 256;
    BitsOfJoin(high, middle, 8, 8);
    BitsOfJoin(256 * high + middle, low, 16, 8);
  }

  // ---- The page buffer ----------------------------------------------------------------

  /** Where in its page byte `k` of a program from `at` on lands. */
  function Slot(at: nat, k: nat): nat {
    (at + k) % 256
  }

  lemma SlotsApart(at: nat, j: nat, k: nat)
    requires j < k < j + 256
    ensures Slot(at, j) != Slot(at, k)
  {
  }

  /** The page buffer after `data` has been sent to it from offset `at` on. */
  function Overlay(at: nat, data: seq<byte>): (page: seq<byte>)
    ensures |page| == 256
  {
    if |data| == 0 then BlankPage()
    else
      var n := |data| - 1;
      Overlay(at, data[..n])[Slot(at, n) := data[n]]
  }

  /** The buffer wraps: each offset holds the last byte sent to it. */
  lemma {:induction false} OverlayHolds(at: nat, data: seq<byte>, k: nat)
    requires k < |data| <= k + 256
    ensures Overlay(at, data)[Slot(at, k)] == data[k]
  {
    var n := |data| - 1;
    if k < n {
      OverlayHolds(at, data[..n], k);
      SlotsApart(at, k, n);
    }
  }

  /** Offsets never sent to stay blank. */
  lemma {:induction false} OverlayBlank(at: nat, data: seq<byte>, j: nat)
    requires j < 256 && forall k :: 0 <= k < |data| ==> Slot(at, k) != j
    ensures Overlay(at, data)[j] == 0xff
  {
    if |data| == 0 {
    } else {
      var n := |data| - 1;
      OverlayBlank(at, data[..n], j);
    }
  }

  // ---- Commands --------------------------------------------------------------------------

  /** Selected afresh: nothing has been sent yet. */
  ghost predicate Fresh(f: Flash) {
    !f.state.Lost? && f.lastSck && f.count == 0 && f.ireg == Zeros(32) && |f.pmem| == 256 && |f.mem| == SIZE
  }

  lemma FirstByte(f: Flash, b: byte)
    requires Fresh(f)
    ensures PushByte(f, b) == OnCommand(TakeIn(f, BitsOf(b, 8)))
    ensures TakeIn(f, BitsOf(b, 8)).LastByte() == b
  {
    var s := TakeIn(f, BitsOf(b, 8));
    assert s.ireg[24..] == BitsOf(b, 8);
    Pow2Constants();
    ValOfBits(b, 8);
  }

  /** The device `n` bytes into an armed command, with `taken` its bits so far. */
  ghost predicate Armed(g: Flash, f: Flash, cmd: Command, taken: seq<bool>)
  {
    && g.state == cmd && |taken| <= 32 && g.count == |taken| && g.ireg == Zeros(32 - |taken|) + taken
    && SameBody(f, g) && |g.pmem| == 256
  }

  lemma CommandArms(f: Flash, b: byte)
    requires Fresh(f) && f.wel && !f.wip && (b == 0x02 || b == 0xd8)
    ensures Armed(PushByte(f, b), f, if b == 0x02 then PageProgram else SectorErase, BitsOf(b, 8))
  {
    FirstByte(f, b);
    CommandKeeps(TakeIn(f, BitsOf(b, 8)));
  }

  lemma AddressMoves(g: Flash, f: Flash, cmd: Command, taken: seq<bool>, b: byte)
    requires Armed(g, f, cmd, taken) && (|taken| == 8 || |taken| == 16)
    requires cmd.PageProgram? || cmd.SectorErase?
    ensures Armed(PushByte(g, b), f, cmd, taken + BitsOf(b, 8))
  {
    hide BitsOf;
    var s := TakeIn(g, BitsOf(b, 8));
    ByteKeeps(s);
    assert s.ireg == Zeros(24 - |taken|) + (taken + BitsOf(b, 8));
  }

  /** The last address byte completes the address. */
  lemma AddressRead(g: Flash, f: Flash, cmd: Command, op: byte, a: nat)
    requires a < SIZE
    requires var b := AddressBytes(a);
      Armed(g, f, cmd, BitsOf(op, 8) + BitsOf(b[0], 8) + BitsOf(b[1], 8))
    ensures TakeIn(g, BitsOf(AddressBytes(a)[2], 8)).Address() == a
  {
    hide BitsOf, Val, AddressBytes;
    var b := AddressBytes(a);
    var s := TakeIn(g, BitsOf(b[2], 8));
    AddressSpelled(a);
    Pow2Constants();
    ValOfBits(a, 24);
    assert s.ireg[8..] == BitsOf(b[0], 8) + BitsOf(b[1], 8) + BitsOf(b[2], 8);
  }

  lemma ProgramAddressed(g: Flash, f: Flash, op: byte, a: nat)
    requires a < SIZE
    requires var b := AddressBytes(a);
      Armed(g, f, PageProgram, BitsOf(op, 8) + BitsOf(b[0], 8) + BitsOf(b[1], 8))
    ensures Programming(PushByte(g, AddressBytes(a)[2]), f, a, [])
  {
    AddressRead(g, f, PageProgram, op, a);
    ByteKeeps(TakeIn(g, BitsOf(AddressBytes(a)[2], 8)));
  }

  /** The device about to erase the sector of `a`. */
  ghost predicate Erasing(g: Flash, f: Flash, a: nat)
  {
    g.state.SectorErase? && SameBody(f, g) && |g.pmem| == 256 && SectorOf(g.addr) == SectorOf(a)
  }

  lemma EraseAddressIn(s: Flash)
    requires s.state.SectorErase? && s.count == 32 && s.Address() < ERASE_LIMIT
    ensures Dispatch(s) == Qoreg(s, 0).(addr := s.Address() - s.Address() % 0x4000)
  {
  }

  lemma EraseAddressed(g: Flash, f: Flash, op: byte, a: nat)
    requires a < ERASE_LIMIT
    requires var b := AddressBytes(a);
      Armed(g, f, SectorErase, BitsOf(op, 8) + BitsOf(b[0], 8) + BitsOf(b[1], 8))
    ensures Erasing(PushByte(g, AddressBytes(a)[2]), f, a)
  {
    hide Dispatch, AddressBytes, BitsOf;
    AddressRead(g, f, SectorErase, op, a);
    EraseAddressIn(TakeIn(g, BitsOf(AddressBytes(a)[2], 8)));
    SectorOfBlock(a);
  }

  /** Clearing 14 bits and then 16 is clearing 16. */
  lemma SectorOfBlock(a: nat)
    ensures 0 <= a - a % 0x4000 <= a && SectorOf(a - a % 0x4000) == SectorOf(a)
  {
    var q, r := a / 0x1_0000, a % 0x1_0000;
    var m := r - r % 0x4000;
    assert a - a % 0x4000 == q * 0x1_0000 + m;
  }

  /** The device with `data` in its page buffer. */
  ghost predicate Programming(g: Flash, f: Flash, a: nat, data: seq<byte>)
  {
    && g.state.PageProgram? && g.count == 32 + 8 * |data| && SameBody(f, g)
    && g.pmem == Overlay(a, data) && g.addr == PageOf(a) + Slot(a, |data|)
  }

  lemma DataByteIn(s: Flash)
    requires s.state.PageProgram? && s.count % 8 == 0 && s.count >= 40 && |s.pmem| == 256
    ensures Dispatch(s) == Qoreg(s, 0).(pmem := s.pmem[s.addr % 256 := s.LastByte()],
                                        addr := PageOf(s.addr) + (s.addr + 1) % 256)
  {
    hide OnCommand, ByteOf, BitsOf, PageOf;
  }

  lemma DataByte(g: Flash, b: byte)
    requires g.state.PageProgram? && g.count % 8 == 0 && 32 <= g.count < 0xffff_fff8 && |g.pmem| == 256
    ensures PushByte(g, b) ==
      Qoreg(TakeIn(g, BitsOf(b, 8)), 0).(pmem := g.pmem[g.addr % 256 := b], addr := PageOf(g.addr) + (g.addr + 1) % 256)
  {
    hide BitsOf, Val, Dispatch;
    var s := TakeIn(g, BitsOf(b, 8));
    assert s.ireg[24..] == BitsOf(b, 8);
    Pow2Constants();
    ValOfBits(b, 8);
    DataByteIn(s);
  }

  lemma DataMoves(g: Flash, f: Flash, a: nat, data: seq<byte>, b: byte)
    requires Programming(g, f, a, data) && 40 + 8 * |data| < 0x1_0000_0000
    ensures Programming(PushByte(g, b), f, a, data + [b])
  {
    hide PushByte, BitsOf, ByteOf, Val, Slot, PageOf;
    DataByte(g, b);
    assert (data + [b])[..|data|] == data;
    PageWalk(a, |data|);
  }

  lemma PageWalk(a: nat, n: nat)
    ensures var x := PageOf(a) + Slot(a, n);
      x % 256 == Slot(a, n) && PageOf(x) == PageOf(a) && (x + 1) % 256 == Slot(a, n + 1)
  {
    var q, m, r := a / 256, (a + n) / 256, (a + n) % 256;
    var x := PageOf(a) + r;
    DivModUnique(x, 256, q, r);
    if r < 255 {
      DivModUnique(x + 1, 256, q, r + 1);
      DivModUnique(a + n + 1, 256, m, r + 1);
    } else {
      DivModUnique(x + 1, 256, q + 1, 0);
      DivModUnique(a + n + 1, 256, m + 1, 0);
    }
  }

  // ---- Whole commands ---------------------------------------------------------------------

  lemma PushOne(f: Flash, bytes: seq<byte>, b: byte)
    ensures PushBytes(f, bytes + [b]) == PushByte(PushBytes(f, bytes), b)
  {
    assert (bytes + [b])[..|bytes|] == bytes;
  }

  lemma PushFirst(f: Flash, b: byte)
    ensures PushBytes(f, [b]) == PushByte(f, b)
  {
    assert [b][..0] == [];
  }

  function ProgramCommand(a: nat, data: seq<byte>): seq<byte> {
    [0x02] + AddressBytes(a) + data
  }

  function EraseCommand(a: nat): seq<byte> {
    [0xd8] + AddressBytes(a)
  }

  /** Two of the three address bytes. */
  lemma HalfAddressed(f: Flash, op: byte, a: nat)
    requires Fresh(f) && f.wel && !f.wip && a < SIZE && (op == 0x02 || op == 0xd8)
    ensures var b := AddressBytes(a);
      Armed(PushBytes(f, [op, b[0], b[1]]), f, if op == 0x02 then PageProgram else SectorErase,
            BitsOf(op, 8) + BitsOf(b[0], 8) + BitsOf(b[1], 8))
  {
    hide PushByte;
    var b, cmd := AddressBytes(a), if op == 0x02 then PageProgram else SectorErase;
    CommandArms(f, op);
    PushFirst(f, op);
    AddressMoves(PushByte(f, op), f, cmd, BitsOf(op, 8), b[0]);
    PushOne(f, [op], b[0]);
    assert [op] + [b[0]] == [op, b[0]];
    AddressMoves(PushBytes(f, [op, b[0]]), f, cmd, BitsOf(op, 8) + BitsOf(b[0], 8), b[1]);
    PushOne(f, [op, b[0]], b[1]);
    assert [op, b[0]] + [b[1]] == [op, b[0], b[1]];
  }

  lemma {:induction false} ProgramString(f: Flash, a: nat, data: seq<byte>)
    requires Fresh(f) && f.wel && !f.wip && a < SIZE && 40 + 8 * |data| < 0x1_0000_0000
    ensures Programming(PushBytes(f, ProgramCommand(a, data)), f, a, data)
  {
    hide PushByte, Slot, PageOf, Overlay, BitsOf, SameBody;
    if |data| == 0 {
      var b := AddressBytes(a);
      HalfAddressed(f, 0x02, a);
      ProgramAddressed(PushBytes(f, [0x02, b[0], b[1]]), f, 0x02, a);
      PushOne(f, [0x02, b[0], b[1]], b[2]);
      assert [0x02, b[0], b[1]] + [b[2]] == ProgramCommand(a, []);
    } else {
      var n := |data| - 1;
      ProgramString(f, a, data[..n]);
      DataMoves(PushBytes(f, ProgramCommand(a, data[..n])), f, a, data[..n], data[n]);
      PushOne(f, ProgramCommand(a, data[..n]), data[n]);
      assert ProgramCommand(a, data[..n]) + [data[n]] == ProgramCommand(a, data);
      assert data[..n] + [data[n]] == data;
    }
  }

  lemma DeselectPrograms(g: Flash, f: Flash, a: nat, data: seq<byte>)
    requires Programming(g, f, a, data) && Fresh(f)
    ensures var h := Deselect(g);
      && h.mem == AndPage(f.mem, PageOf(a), Overlay(a, data))
      && Fresh(h) && h.state.Idle? && h.wip && !h.wel && h.writeCount == TPP
  {
    hide AndPage, Overlay;
    PageWalk(a, |data|);
    assert g.addr == PageOf(a) + Slot(a, |data|);
  }

  /** Page program: the bytes sent, laid over a blank page with wrapping, are ANDed into the
      page of the address; nothing else in the array moves, and the device is busy. */
  lemma ProgramEffect(f: Flash, a: nat, data: seq<byte>)
    requires Fresh(f) && f.wel && !f.wip && a < SIZE && 40 + 8 * |data| < 0x1_0000_0000
    ensures var g := Deselect(PushBytes(f, ProgramCommand(a, data)));
      && g.mem == AndPage(f.mem, PageOf(a), Overlay(a, data))
      && Fresh(g) && g.state.Idle? && g.wip && !g.wel && g.writeCount == TPP
  {
    hide PushByte;
    ProgramString(f, a, data);
    DeselectPrograms(PushBytes(f, ProgramCommand(a, data)), f, a, data);
  }

  lemma EraseString(f: Flash, a: nat)
    requires Fresh(f) && f.wel && !f.wip && a < ERASE_LIMIT
    ensures Erasing(PushBytes(f, EraseCommand(a)), f, a)
  {
    hide PushByte;
    var b := AddressBytes(a);
    HalfAddressed(f, 0xd8, a);
    EraseAddressed(PushBytes(f, [0xd8, b[0], b[1]]), f, 0xd8, a);
    PushOne(f, [0xd8, b[0], b[1]], b[2]);
    assert [0xd8, b[0], b[1]] + [b[2]] == EraseCommand(a);
  }

  /** Sector erase: the 64 kB sector of the address turns to 0xff, and nothing else moves. */
  lemma EraseEffect(f: Flash, a: nat)
    requires Fresh(f) && f.wel && !f.wip && a < ERASE_LIMIT
    ensures var g := Deselect(PushBytes(f, EraseCommand(a)));
      && g.mem == Erase(f.mem, SectorOf(a))
      && Fresh(g) && g.state.Idle? && g.wip && !g.wel && g.writeCount == TSE
  {
    hide PushByte;
    EraseString(f, a);
  }

  /** Write enable sets the latch that both of the above need. */
  lemma EnableEffect(f: Flash)
    requires Fresh(f)
    ensures var g := Deselect(PushBytes(f, [0x06]));
      Fresh(g) && g.state.Idle? && g.wel && g.wip == f.wip && g.writeCount == f.writeCount && g.mem == f.mem
  {
    PushFirst(f, 0x06);
    FirstByte(f, 0x06);
    CommandKeeps(TakeIn(f, BitsOf(0x06, 8)));
  }

  /** Write disable clears it. */
  lemma DisableEffect(f: Flash)
    requires Fresh(f)
    ensures var g := Deselect(PushBytes(f, [0x04]));
      Fresh(g) && g.state.Idle? && !g.wel && g.wip == f.wip && g.writeCount == f.writeCount && g.mem == f.mem
  {
    PushFirst(f, 0x04);
    FirstByte(f, 0x04);
    CommandKeeps(TakeIn(f, BitsOf(0x04, 8)));
  }

  // ---- Refusals -------------------------------------------------------------------------------------

  /** A device that has turned a command down, `n` bytes into it. */
  ghost predicate Refusing(g: Flash, f: Flash, n: nat)
  {
    g.state.Invalid? && g.count == 8 * n && SameBody(f, g) && g.wel == f.wel
  }

  lemma Refuses(f: Flash, op: byte)
    requires Fresh(f) && !(f.wel && !f.wip) && (op == 0x02 || op == 0xd8)
    ensures Refusing(PushByte(f, op), f, 1)
  {
    FirstByte(f, op);
    CommandKeeps(TakeIn(f, BitsOf(op, 8)));
  }

  lemma RefusingOn(g: Flash, f: Flash, n: nat, b: byte)
    requires Refusing(g, f, n) && 0 < n && 8 * (n + 1) < 0x1_0000_0000
    ensures Refusing(PushByte(g, b), f, n + 1)
  {
    hide BitsOf, OnCommand;
    ByteKeeps(TakeIn(g, BitsOf(b, 8)));
  }

  lemma {:induction false} RefusingString(f: Flash, bytes: seq<byte>)
    requires Fresh(f) && !(f.wel && !f.wip) && 0 < |bytes| && 8 * |bytes| < 0x1_0000_0000
    requires bytes[0] == 0x02 || bytes[0] == 0xd8
    ensures Refusing(PushBytes(f, bytes), f, |bytes|)
  {
    hide PushByte, Refusing;
    var n := |bytes| - 1;
    if n == 0 {
      assert bytes == [bytes[0]];
      PushFirst(f, bytes[0]);
      Refuses(f, bytes[0]);
    } else {
      RefusingString(f, bytes[..n]);
      RefusingOn(PushBytes(f, bytes[..n]), f, n, bytes[n]);
    }
  }

  /** Without the write-enable latch, or while a write is in progress, neither a page program nor a
      sector erase does anything. */
  lemma RefusedEffect(f: Flash, bytes: seq<byte>)
    requires Fresh(f) && !(f.wel && !f.wip) && 0 < |bytes| && 8 * |bytes| < 0x1_0000_0000
    requires bytes[0] == 0x02 || bytes[0] == 0xd8
    ensures var g := Deselect(PushBytes(f, bytes));
      g.mem == f.mem && g.wip == f.wip && g.wel == f.wel && g.writeCount == f.writeCount
  {
    hide PushBytes;
    RefusingString(f, bytes);
  }

  /** The two commands that do nothing. */
  lemma NothingEffect(f: Flash, op: byte)
    requires Fresh(f) && (op == 0x00 || op == 0xff)
    ensures var g := Deselect(PushBytes(f, [op])); Fresh(g) && SameBody(f, g) && g.wel == f.wel && g.state.Idle?
  {
    PushFirst(f, op);
    FirstByte(f, op);
    CommandKeeps(TakeIn(f, BitsOf(op, 8)));
  }

  /** While the byte after it goes in, every command but a status read is answered with 0xa5. */
  lemma CommandReply(f: Flash, op: byte)
    requires Fresh(f) && op != 0x05
    ensures PushByte(f, op).oreg[24..] == BitsOf(0xa5, 8)
  {
    FirstByte(f, op);
    hide BitsOf, Val, PushByte;
  }

  /** During a write a read gives nothing but zeros, from its second byte on. */
  lemma BusyRead(g: Flash, b: byte)
    requires g.state.SlowRead? && g.wip && g.count % 8 == 0 && 32 <= g.count < 0xffff_fff8
    ensures PushByte(g, b).oreg == Zeros(32) && PushByte(g, b).state.SlowRead?
  {
    hide BitsOf, OnCommand, ReadByte;
  }

  /** A status read gives the busy flag, the latch, and ones where the flash has them. */
  lemma StatusReply(f: Flash)
    requires Fresh(f)
    ensures var v := ByteOf(PushByte(f, 0x05).oreg[24..]);
      (v % 2 == 1 <==> f.wip) && (v / 2 % 2 == 1 <==> f.wel) && v / 4 == 7
  {
    hide BitsOf, Val, ByteOf, PushByte, TakeIn, Qoreg;
    FirstByte(f, 0x05);
    var s := TakeIn(f, BitsOf(0x05, 8));
    SregByte(s);
    TakenFlags(f, BitsOf(0x05, 8));
    SregBits(f.wip, f.wel);
  }

  lemma TakenFlags(f: Flash, bits: seq<bool>)
    requires |bits| <= 8
    ensures TakeIn(f, bits).wip == f.wip && TakeIn(f, bits).wel == f.wel
  {
  }

  lemma SregBits(wip: bool, wel: bool)
    ensures var v := 0x1c + (if wel then 2 else 0) + (if wip then 1 else 0);
      (v % 2 == 1 <==> wip) && (v / 2 % 2 == 1 <==> wel) && v / 4 == 7
  {
  }

  lemma SregByte(s: Flash)
    ensures ByteOf(Qoreg(s, s.Sreg()).oreg[24..]) == s.Sreg()
  {
    hide BitsOf;
    Pow2Constants();
    ValOfBits(s.Sreg(), 8);
    assert Qoreg(s, s.Sreg()).oreg[24..] == BitsOf(s.Sreg(), 8);
  }

  /** Reading the effect at one address of the page: the last byte sent to it, ANDed in. */
  lemma ProgramByte(mem: seq<byte>, a: nat, data: seq<byte>, k: nat)
    requires |mem| == SIZE && a < SIZE && k < |data| <= k + 256
    ensures PageOf(a) + Slot(a, k) < SIZE
    ensures AndPage(mem, PageOf(a), Overlay(a, data))[PageOf(a) + Slot(a, k)]
         == And(mem[PageOf(a) + Slot(a, k)], data[k])
  {
    PageFits(a);
    OverlayHolds(a, data, k);
    AndPageAt(mem, PageOf(a), Overlay(a, data), Slot(a, k));
  }

  lemma AndPageAt(mem: seq<byte>, base: nat, page: seq<byte>, j: nat)
    requires j < |page| && base + j < |mem|
    ensures AndPage(mem, base, page)[base + j] == And(mem[base + j], page[j])
  {
  }

  lemma PageFits(a: nat)
    requires a < 0x100_0000
    ensures PageOf(a) + 256 <= 0x100_0000
  {
  }
}
