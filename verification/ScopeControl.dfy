/** The control word of the two scopes, rtl/wbscope.v and rtl/wbscopc.v, and the host's reading and
    writing of it, sw/host/scopecls.cpp. */
module ScopeControl {
  import opened Bits
  import WbScope
  import WbScopC

  function Flag(b: bool): (n: nat)
    ensures n < 2
  {
    if b then 1 else 0
  }

  /** The status bits, from bit 31 down, the size of memory and the holdoff. */
  datatype Status = Status(reset: bool, stopped: bool, triggered: bool, primed: bool, manual: bool, disable: bool,
                           zero: bool, lgmem: nat, holdoff: nat)
  {
    predicate Fits() {
      lgmem < 32 && holdoff < 0x10_0000
    }

    /** The upper seven bits. */
    function Flags(): nat {
      Val([reset, stopped, triggered, primed, manual, disable, zero])
    }

    function Word(): nat {
      0x200_0000 * Flags() + 0x10_0000 * lgmem + holdoff
    }
  }

  /** What the scopes put on the bus when the control register is addressed. */
  function PlainStatus(r: WbScope.Regs, lgmem: nat): Status {
    Status(r.Reset(), r.stop.stopped, r.stop.triggered, r.store.primed, r.config.manual, r.config.disable,
           r.reader.raddr == 0, lgmem, r.config.holdoff)
  }

  function CompressedStatus(r: WbScopC.Regs, lgmem: nat): Status {
    Status(r.Reset(), r.stop.p4, r.stop.triggered, r.store.primed, r.config.manual, r.config.disable,
           r.reader.raddr == 0, lgmem, r.config.holdoff)
  }

  // ---- The host's tests ---------------------------------------------------------------------------

  /** ready(): bits 30 and 29. */
  predicate Ready(v: nat) {
    v / 0x2000_0000 % 2 == 1 && v / 0x4000_0000 % 2 == 1
  }

  /** m_scoplen */
  function Length(v: nat): nat {
    Pow2(v / 0x10_0000 % 32)
  }

  /** m_holdoff */
  function Holdoff(v: nat): nat {
    v % 0x10_0000
  }

  lemma Parts(s: Status)
    requires s.Fits()
    ensures s.Word() / 0x200_0000 == s.Flags()
    ensures s.Word() / 0x10_0000 % 32 == s.lgmem && s.Word() % 0x10_0000 == s.holdoff
  {
    var v, upper := s.Word(), 32 * s.Flags() + s.lgmem;
    DivModUnique(v, 0x200_0000, s.Flags(), 0x10_0000 * s.lgmem + s.holdoff);
    DivModUnique(v, 0x10_0000, upper, s.holdoff);
    DivModUnique(upper, 32, s.Flags(), s.lgmem);
  }

  lemma {:induction false} ValBit(bits: seq<bool>, k: nat)
    requires k < |bits|
    ensures Val(bits) / Pow2(k) % 2 == Flag(bits[|bits| - 1 - k])
  {
    var front, v := bits[..|bits| - 1], Val(bits);
    var low := Flag(bits[|bits| - 1]);
    assert v == 2 * Val(front) + low && (k > 0 ==> front[|front| - k] == bits[|bits| - 1 - k]);
    hide Val, Flag;
    if k == 0 {
      DivModUnique(v, 1, v, 0);
      DivModUnique(v, 2, Val(front), low);
    } else {
      ValBit(front, k - 1);
      Deeper(v, Val(front), low, Pow2(k - 1));
    }
  }

  lemma Deeper(v: nat, f: nat, low: nat, p: nat)
    requires v == 2 * f + low && low < 2 && p > 0
    ensures v / (2 * p) == f / p
  {
    var q, r := f / p, f % p;
    Twice(q, p, r, low);
    DivModUnique(v, 2 * p, q, 2 * r + low);
  }

  lemma Twice(q: nat, p: nat, r: nat, low: nat)
    ensures 2 * (q * p + r) + low == q * (2 * p) + (2 * r + low)
  {
  }

  lemma FlagPowers()
    ensures Pow2(1) == 2 && Pow2(2) == 4 && Pow2(3) == 8 && Pow2(4) == 16 && Pow2(5) == 32 && Pow2(6) == 64
  {
  }

  lemma FlagsAre(s: Status)
    ensures s.Flags() / 32 % 2 == Flag(s.stopped) && s.Flags() / 16 % 2 == Flag(s.triggered)
    ensures s.Flags() / 4 % 2 == Flag(s.manual) && s.Flags() / 2 % 2 == Flag(s.disable)
  {
    FlagPowers();
    hide Pow2, Val;
    var bits := [s.reset, s.stopped, s.triggered, s.primed, s.manual, s.disable, s.zero];
    ValBit(bits, 5);
    ValBit(bits, 4);
    ValBit(bits, 2);
    ValBit(bits, 1);
  }

  lemma Shifted(v: nat)
    ensures v / 0x200_0000 / 16 == v / 0x2000_0000 && v / 0x200_0000 / 32 == v / 0x4000_0000
    ensures v / 0x200_0000 / 4 == v / 0x800_0000 && v / 0x200_0000 / 2 == v / 0x400_0000
  {
  }

  /** The host takes the word apart as the scope put it together. */
  lemma HostReads(s: Status)
    requires s.Fits()
    ensures Ready(s.Word()) <==> s.stopped && s.triggered
    ensures Length(s.Word()) == Pow2(s.lgmem) && Holdoff(s.Word()) == s.holdoff
    ensures s.Word() / 0x800_0000 % 2 == Flag(s.manual) && s.Word() / 0x400_0000 % 2 == Flag(s.disable)
  {
    hide Pow2;
    Parts(s);
    FlagsAre(s);
    Shifted(s.Word());
    hide Status.Word, Status.Flags;
  }

  /** So the host finds the plain scope ready exactly when it has stopped, */
  lemma PlainReadyIff(p: WbScope.Params, r: WbScope.Regs, h: WbScope.History, holdoff: nat, lgmem: nat)
    requires WbScope.Invariant(p, r, h, holdoff) && lgmem < 32 && p.depth == Pow2(lgmem) && holdoff < 0x10_0000
    ensures var v := PlainStatus(r, lgmem).Word();
      (Ready(v) <==> r.stop.stopped) && Length(v) == p.depth && Holdoff(v) == holdoff
  {
    HostReads(PlainStatus(r, lgmem));
    hide WbScope.Recorded, WbScope.Held;
    PlainHeld(p, r, h, holdoff);
    hide Ready, Length, Holdoff, Status.Word;
  }

  lemma PlainHeld(p: WbScope.Params, r: WbScope.Regs, h: WbScope.History, holdoff: nat)
    requires WbScope.Invariant(p, r, h, holdoff)
    ensures r.config.holdoff == holdoff && (r.stop.stopped ==> r.stop.triggered)
  {
  }

  /** and the compressing scope exactly when its stop is down its pipe. */
  lemma CompressedReadyIff(p: WbScopC.Params, r: WbScopC.Regs, h: WbScopC.History, lgmem: nat)
    requires WbScopC.Invariant(p, r, h) && lgmem < 32 && p.depth == Pow2(lgmem) && r.config.holdoff < 0x10_0000
    ensures var v := CompressedStatus(r, lgmem).Word();
      (Ready(v) <==> r.stop.p4) && Length(v) == p.depth && Holdoff(v) == r.config.holdoff
  {
    HostReads(CompressedStatus(r, lgmem));
    if r.stop.p4 {
      WbScopC.StoppedTriggered(p, r, h);
    }
    hide Ready, Length, Holdoff, Status.Word;
  }

  // ---- What is written is read back ---------------------------------------------------------------

  /** The settings in a control word: bits 27 and 26, and the lowest twenty. */
  predicate SameSettings(v: nat, bus: nat, holdoff: nat) {
    v / 0x800_0000 % 2 == bus / 0x800_0000 % 2 && v / 0x400_0000 % 2 == bus / 0x400_0000 % 2 && Holdoff(v) == holdoff
  }

  /** A write to the compressing scope's control register sets the switches and the holdoff, and
      resets the scope unless bit 31 is set. */
  lemma CompressedSettings(p: WbScopC.Params, r: WbScopC.Regs, i: WbScopC.Input, lgmem: nat)
    requires p.Valid() && r.Sized(p) && i.stb && i.we && !i.addr && lgmem < 32 && p.holdoffLimit <= 0x10_0000
    ensures var r' := WbScopC.Next(p, r, i);
      && SameSettings(CompressedStatus(r', lgmem).Word(), i.bus, i.bus % p.holdoffLimit)
      && (r'.Reset() <==> i.bus / 0x8000_0000 % 2 == 0)
  {
    hide WbScopC.NextStop, WbScopC.NextEncoder, WbScopC.NextStore, WbScopC.NextRead;
    HostReads(CompressedStatus(WbScopC.Next(p, r, i), lgmem));
    hide Status.Word;
  }

  /** The plain scope takes a new holdoff only with a reset, and a write during a reset does not
      hold it there. */
  lemma PlainSettings(p: WbScope.Params, r: WbScope.Regs, i: WbScope.Input, lgmem: nat)
    requires p.Valid() && r.Sized(p) && i.stb && i.we && !i.addr && lgmem < 32
    requires r.config.holdoff < p.holdoffLimit <= 0x10_0000
    ensures var r', keeps := WbScope.Next(p, r, i), i.bus / 0x8000_0000 % 2 == 1;
      && SameSettings(PlainStatus(r', lgmem).Word(), i.bus, if keeps then r.config.holdoff else i.bus % p.holdoffLimit)
      && (r'.Reset() <==> !keeps && !r.Reset())
  {
    hide WbScope.NextStop, WbScope.NextStore, WbScope.NextRead;
    HostReads(PlainStatus(WbScope.Next(p, r, i), lgmem));
    hide Status.Word;
  }

  /** Nothing else on the bus changes them. */
  lemma SettingsKept(p: WbScope.Params, r: WbScope.Regs, i: WbScope.Input, q: WbScopC.Params, t: WbScopC.Regs,
                     j: WbScopC.Input)
    requires p.Valid() && r.Sized(p) && !(i.stb && i.we && !i.addr)
    requires q.Valid() && t.Sized(q) && !(j.stb && j.we && !j.addr)
    ensures WbScope.Next(p, r, i).config == r.config.(running := true)
    ensures var c := WbScopC.Next(q, t, j).config; c == t.config.(running := c.running) && (t.config.running ==> c.running)
  {
    hide WbScope.NextStop, WbScope.NextStore, WbScope.NextRead;
    hide WbScopC.NextStop, WbScopC.NextEncoder, WbScopC.NextStore, WbScopC.NextRead;
  }

  /** Once the plain scope has stopped, a read of the data register moves on to the next word, and
      nothing but that and a write to the control register moves it. */
  lemma OnlyReadsMove(p: WbScope.Params, r: WbScope.Regs, i: WbScope.Input)
    requires p.Valid() && r.Sized(p) && !r.Reset()
    ensures var a := WbScope.Next(p, r, i).reader.raddr;
      a == if i.stb && i.we && !i.addr then 0
           else if i.stb && !i.we && i.addr && r.stop.stopped then (r.reader.raddr + 1) % p.depth
           else r.reader.raddr
  {
    hide WbScope.NextStop, WbScope.NextStore, WbScope.NextConfig;
    if r.reader.raddr + 1 == p.depth {
      DivModUnique(p.depth, p.depth, 1, 0);
    } else {
      DivModUnique(r.reader.raddr + 1, p.depth, 0, r.reader.raddr + 1);
    }
  }
}
