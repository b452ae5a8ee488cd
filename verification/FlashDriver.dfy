/** The host's flash driver, sw/host/flashdrvr.cpp. */
module FlashDriver {
  import opened Bits
  import opened FlashDevice
  import opened FlashProgram
  import opened FlashRead
  import opened DevBus

  // ---- What a write means ---------------------------------------------------------------

  /** `data` ANDed into memory at `at`. */
  function Burn(mem: seq<byte>, at: nat, data: seq<byte>): (r: seq<byte>)
    ensures |r| == |mem|
  {
    seq(|mem|, i requires 0 <= i < |mem| =>
      if at <= i < at + |data| then AndByte(mem[i], data[i - at]) else mem[i])
  }

  /** Some byte of the sector at `s` needs a bit to go from 0 to 1. */
  predicate NeedsErase(mem: seq<byte>, at: nat, data: seq<byte>, s: nat)
    requires at + |data| <= |mem|
  {
    exists i :: at <= i < at + |data| && SectorOf(i) == s && And(mem[i], data[i - at]) != data[i - at]
  }

  /** Memory after a write: the data in its range; around it, 0xff in a sector that had to be
      erased and no change anywhere else. */
  function Written(mem: seq<byte>, at: nat, data: seq<byte>): (r: seq<byte>)
    requires at + |data| <= |mem|
    ensures |r| == |mem|
  {
    seq(|mem|, i requires 0 <= i < |mem| =>
      if at <= i < at + |data| then data[i - at]
      else if NeedsErase(mem, at, data, SectorOf(i)) then 0xff
      else mem[i])
  }

  /** A sector is erased exactly when some bit in it has to rise. */
  lemma EraseMeansRisingBit(mem: seq<byte>, at: nat, data: seq<byte>, s: nat)
    requires at + |data| <= |mem|
    ensures NeedsErase(mem, at, data, s) <==>
      exists i :: at <= i < at + |data| && SectorOf(i) == s && !Covers(mem[i], data[i - at])
  {
    forall i | at <= i < at + |data|
      ensures And(mem[i], data[i - at]) == data[i - at] <==> Covers(mem[i], data[i - at])
    {
      AndKeepsIff(mem[i], data[i - at]);
    }
    if NeedsErase(mem, at, data, s) {
      var i :| at <= i < at + |data| && SectorOf(i) == s && And(mem[i], data[i - at]) != data[i - at];
      assert !Covers(mem[i], data[i - at]);
    }
  }

  // ---- Arithmetic of one page program -----------------------------------------------------

  lemma AndFF(b: byte)
    ensures And(b, 0xff) == b && And(0xff, b) == b
  {
    Pow2Constants();
    AndAllOnes(b, 8);
  }

  lemma OffsetInPage(at: nat, n: nat)
    requires n > 0 && PageOf(at) == PageOf(at + n - 1)
    ensures at - PageOf(at) + n <= 256
    ensures forall k :: 0 <= k < n ==> Slot(at, k) == at - PageOf(at) + k
  {
    forall k | 0 <= k < n
      ensures Slot(at, k) == at - PageOf(at) + k
    {
    }
  }

  /** Within one page, the wrapped overlay is a straight copy. */
  lemma OverlayInPage(at: nat, data: seq<byte>, j: nat)
    requires |data| > 0 && PageOf(at) == PageOf(at + |data| - 1) && j < 256
    ensures var o := at - PageOf(at);
      Overlay(at, data)[j] == if o <= j < o + |data| then data[j - o] else 0xff
  {
    OffsetInPage(at, |data|);
    var o := at - PageOf(at);
    if o <= j < o + |data| {
      assert Slot(at, j - o) == j;
      OverlayHolds(at, data, j - o);
    } else {
      OverlayBlank(at, data, j);
    }
  }

  lemma BurnIsAndPage(mem: seq<byte>, at: nat, data: seq<byte>)
    requires |data| > 0 && PageOf(at) == PageOf(at + |data| - 1)
    ensures AndPage(mem, PageOf(at), Overlay(at, data)) == Burn(mem, at, data)
  {
    var m, b := AndPage(mem, PageOf(at), Overlay(at, data)), Burn(mem, at, data);
    forall i | 0 <= i < |mem|
      ensures m[i] == b[i]
    {
      BurnAt(mem, at, data, i);
    }
  }

  lemma BurnAt(mem: seq<byte>, at: nat, data: seq<byte>, i: nat)
    requires |data| > 0 && PageOf(at) == PageOf(at + |data| - 1) && i < |mem|
    ensures AndPage(mem, PageOf(at), Overlay(at, data))[i] == Burn(mem, at, data)[i]
  {
    hide Overlay;
    OffsetInPage(at, |data|);
    AndFF(mem[i]);
    if PageOf(at) <= i < PageOf(at) + 256 {
      OverlayInPage(at, data, i - PageOf(at));
    }
  }

  lemma BurnBlank(mem: seq<byte>, at: nat, data: seq<byte>)
    requires forall k :: 0 <= k < |data| ==> data[k] == 0xff
    ensures Burn(mem, at, data) == mem
  {
    forall i | 0 <= i < |mem|
      ensures Burn(mem, at, data)[i] == mem[i]
    {
      AndFF(mem[i]);
    }
  }

  // ---- Polling ---------------------------------------------------------------------------

  /** Reading the status register over and over: the byte about to come out was the status at
      some earlier moment, so if it says idle the device is idle now. */
  ghost predicate Polling(f: Flash, mem: seq<byte>, status: byte)
  {
    && f.state.Rdsr? && f.lastSck && f.mem == mem && |mem| == SIZE && |f.pmem| == 256 && Timed(f)
    && f.oreg[24..] == BitsOf(status, 8) && (status % 2 == 0 ==> !f.wip)
    && f.count % 8 == 0 && 8 <= f.count
  }

  /** How many more polls there can be, counting the one that finds the device idle. */
  function Patience(f: Flash, status: byte): nat {
    f.writeCount + status % 2
  }

  lemma StatusBit(f: Flash)
    ensures f.Sreg() % 2 == 1 <==> f.wip
  {
  }

  lemma ReplyIsStatus(f: Flash, mem: seq<byte>, status: byte)
    requires Polling(f, mem, status)
    ensures f.state.Rdsr? && ByteOf(f.oreg[24..]) == status
  {
    ByteRoundTrip(status);
  }

  lemma PollStarts(f: Flash)
    requires Calm(f)
    ensures Polling(PushByte(f, 0x05), f.mem, f.Sreg())
    ensures PushByte(f, 0x05).count == 8 && PushByte(f, 0x05).writeCount == f.writeCount
  {
    hide BitsOf;
    FirstByte(f, 0x05);
    StatusBit(f);
  }

  lemma PollMoves(f: Flash, mem: seq<byte>, status: byte)
    requires Polling(f, mem, status) && f.count + 8 < 0x1_0000_0000
    ensures Polling(PushByte(f, 0x00), mem, f.Sreg())
    ensures var g := PushByte(f, 0x00);
      g.count == f.count + 8 && g.writeCount == f.writeCount && g.wip == f.wip
  {
    hide BitsOf, OnCommand;
    StatusBit(f);
  }

  lemma PollAges(f: Flash, mem: seq<byte>, status: byte, n: nat)
    requires Polling(f, mem, status)
    ensures Polling(Ticks(f, n), mem, status) && Ticks(f, n).count == f.count && (!f.wip ==> !Ticks(f, n).wip)
    ensures Ticks(f, n).writeCount == if f.writeCount <= n then 0 else f.writeCount - n
  {
    TicksOnly(f, n);
  }

  /** One poll: the status moves on, and patience runs down. */
  lemma PollCycle(f: Flash, mem: seq<byte>, status: byte, n: nat, m: nat) returns (next: byte)
    requires Polling(f, mem, status) && n > 0
    requires f.count + 8 * Patience(f, status) <= 8 * (TSE + 3)
    ensures var g := Ticks(PushByte(Ticks(f, n), 0x00), m);
      && Polling(g, mem, next)
      && (status % 2 == 1 ==>
            Patience(g, next) < Patience(f, status) && g.count + 8 * Patience(g, next) <= 8 * (TSE + 3))
      && (status % 2 == 0 ==> !g.wip)
  {
    hide PushByte;
    var f1 := Ticks(f, n);
    PollAges(f, mem, status, n);
    StatusBit(f1);
    next := f1.Sreg();
    PollMoves(f1, mem, status);
    PollAges(PushByte(f1, 0x00), mem, next, m);
  }

  /** Ending the poll of an idle device. */
  lemma PollEnds(f: Flash, mem: seq<byte>, status: byte, n: nat, m: nat)
    requires Polling(f, mem, status) && !f.wip
    ensures var g := Ticks(Deselect(Ticks(f, n)), m); Calm(g) && !g.wip && g.mem == mem
  {
    QuietTicks(f, n);
    DeselectPolling(f, mem, status);
    QuietTicks(Deselect(f), m);
  }

  lemma DeselectPolling(f: Flash, mem: seq<byte>, status: byte)
    requires Polling(f, mem, status) && !f.wip
    ensures Calm(Deselect(f)) && !Deselect(f).wip && Deselect(f).mem == mem
  {
  }

  // ---- Sending a command ---------------------------------------------------------------------

  lemma PushKeeps(f: Flash, b: byte)
    ensures SameBody(f, PushByte(f, b))
  {
    CommandKeeps(TakeIn(f, BitsOf(b, 8)));
    ByteKeeps(TakeIn(f, BitsOf(b, 8)));
  }

  lemma {:induction false} PushesKeep(f: Flash, bytes: seq<byte>)
    ensures SameBody(f, PushBytes(f, bytes))
  {
    hide PushByte;
    if |bytes| == 0 {
    } else {
      PushesKeep(f, bytes[..|bytes| - 1]);
      PushKeeps(PushBytes(f, bytes[..|bytes| - 1]), bytes[|bytes| - 1]);
    }
  }

  /** Nothing armed, let go. */
  lemma CalmEnds(f: Flash, n: nat, m: nat)
    requires Calm(f)
    ensures var g := Ticks(Deselect(Ticks(f, n)), m);
      Calm(g) && g.mem == f.mem && (!f.wip ==> !g.wip && g.wel == f.wel)
  {
    hide Deselect;
    CalmTicks(f, n);
    TicksOnly(f, n);
    CalmStaysCalm(Ticks(f, n));
    CalmTicks(Deselect(Ticks(f, n)), m);
    TicksOnly(Deselect(Ticks(f, n)), m);
  }

  /** An armed erase, let go. */
  lemma EraseLetGo(f: Flash, a: nat, n: nat, m: nat)
    requires Calm(f) && !f.wip && f.wel && a < ERASE_LIMIT
    ensures var g := Ticks(Deselect(Ticks(PushBytes(f, EraseCommand(a)), n)), m);
      Calm(g) && g.mem == Erase(f.mem, SectorOf(a))
  {
    hide PushByte, Deselect, Erase;
    PushesKeep(f, EraseCommand(a));
    QuietTicks(PushBytes(f, EraseCommand(a)), n);
    EraseEffect(f, a);
    CalmTicks(Deselect(PushBytes(f, EraseCommand(a))), m);
  }

  /** An armed page program, let go. */
  lemma ProgramLetGo(f: Flash, a: nat, data: seq<byte>, n: nat, m: nat)
    requires Calm(f) && !f.wip && f.wel && a < SIZE && 0 < |data| <= 256
    requires PageOf(a) == PageOf(a + |data| - 1)
    ensures var g := Ticks(Deselect(Ticks(PushBytes(f, ProgramCommand(a, data)), n)), m);
      Calm(g) && g.mem == Burn(f.mem, a, data)
  {
    hide PushByte, Deselect, AndPage, Overlay;
    PushesKeep(f, ProgramCommand(a, data));
    QuietTicks(PushBytes(f, ProgramCommand(a, data)), n);
    ProgramEffect(f, a, data);
    BurnIsAndPage(f.mem, a, data);
    CalmTicks(Deselect(PushBytes(f, ProgramCommand(a, data))), m);
  }

  lemma EnableLetGo(f: Flash, n: nat, m: nat)
    requires Calm(f) && !f.wip
    ensures var g := Ticks(Deselect(Ticks(PushBytes(f, [F_WREN]), n)), m);
      Calm(g) && !g.wip && g.wel && g.mem == f.mem
  {
    hide PushByte, Deselect;
    PushesKeep(f, [F_WREN]);
    QuietTicks(PushBytes(f, [F_WREN]), n);
    EnableEffect(f);
    QuietTicks(Deselect(PushBytes(f, [F_WREN])), m);
  }

  // ---- Verifying ---------------------------------------------------------------------------

  lemma OnesWord(b: seq<byte>)
    requires |b| >= 4 && b[0] == b[1] == b[2] == b[3] == 0xff
    ensures BuildWord(b) == Ones(32)
  {
    ByteOnes();
  }

  lemma ErasedWord(mem: seq<byte>, a: nat, line: nat)
    requires |mem| == SIZE && a < SIZE && SectorOf(a) == a && a <= 4 * line && 4 * line + 3 < a + 0x1_0000 <= SIZE
    ensures WordAt(Erase(mem, a), line) == Ones(32)
  {
    var m := Erase(mem, a);
    WordIsBuilt(m, line);
    OnesWord(m[4 * line..4 * line + 4]);
  }

  /** Page `i` of an erased sector. */
  lemma ErasedPage(mem: seq<byte>, a: nat, i: nat, page: seq<word>)
    requires |mem| == SIZE && a < ERASE_LIMIT && a % 0x1_0000 == 0 && i < 256 && |page| == 64
    requires forall j :: 0 <= j < 64 ==> page[j] == WordAt(Erase(mem, a), (a + 256 * i) / 4 + j)
    ensures forall j :: 0 <= j < 64 ==> page[j] == Ones(32)
  {
    hide Erase, WordAt;
    var line := a / 4 + 64 * i;
    assert (a + 256 * i) / 4 == line;
    forall j | 0 <= j < 64
      ensures page[j] == Ones(32)
    {
      ErasedWord(mem, a, line + j);
    }
  }

  lemma WordInRun(mem: seq<byte>, a: nat, n: nat, k: nat)
    requires a % 4 == 0 && a + n <= |mem| && 4 * k + 4 <= n
    ensures WordAt(mem, a / 4 + k) == BuildWord(mem[a..a + n][4 * k..])
  {
    hide BitsOf, WordAt;
    WordIsBuilt(mem, a / 4 + k);
    assert mem[4 * (a / 4 + k)..4 * (a / 4 + k) + 4] == mem[a..a + n][4 * k..][..4];
  }

  /** Two runs of words are equal exactly when their bytes are. */
  lemma WordsEqualIff(x: seq<byte>, y: seq<byte>)
    requires |x| >= 4 && |y| >= 4
    ensures BuildWord(x) == BuildWord(y) <==> x[..4] == y[..4]
  {
    if BuildWord(x) == BuildWord(y) {
      forall j | 0 <= j < 4
        ensures x[j] == y[j]
      {
        HostByteOfBuild(x, j);
        HostByteOfBuild(y, j);
      }
    }
  }

  /** The driver's mask takes the flash's base away. */
  lemma MaskOffset(base: nat, addr: nat)
    requires Masked(base) && base <= addr < base + 0x100_0000
    ensures addr % 0x100_0000 == addr - base
    ensures (addr - base) % 0x1_0000 == addr % 0x1_0000
  {
    var q, a := base / 0x100_0000, addr - base;
    DivModUnique(addr, 0x100_0000, q, a);
    DivModUnique(addr, 0x1_0000, 256 * q + a / 0x1_0000, a % 0x1_0000);
  }

  /** Were the base no multiple of 2^24, the mask would leave every address of the flash wrong. */
  lemma MaskOffsetIff(base: nat, addr: nat)
    requires base <= addr < base + 0x100_0000
    ensures addr % 0x100_0000 == addr - base <==> Masked(base)
  {
    if Masked(base) {
      MaskOffset(base, addr);
    } else if addr % 0x100_0000 == addr - base {
      DivModUnique(base, 0x100_0000, addr / 0x100_0000, 0);
    }
  }

  lemma SamePage(base: nat, a: nat, n: nat)
    requires Masked(base) && n > 0 && PageOf(a + base) == PageOf(a + base + n - 1)
    ensures PageOf(a) == PageOf(a + n - 1)
  {
    assert base == 256 * (base / 256);
    assert (a + base) % 256 == a % 256;
    assert (a + base + n - 1) % 256 == (a + n - 1) % 256;
  }

  // ---- Programming a sector ----------------------------------------------------------------

  /** Programming can produce the data from `start` up to `limit`: no bit has to rise. */
  ghost predicate Programmable(mem: seq<byte>, start: nat, at: nat, data: seq<byte>, limit: nat)
    requires at + |data| <= |mem|
  {
    forall x :: start <= x < limit && at <= x < at + |data| ==> And(mem[x], data[x - at]) == data[x - at]
  }

  /** The data from `start` up to `stop` is in place and nothing else has moved. */
  ghost predicate Filled(mem: seq<byte>, now: seq<byte>, start: nat, stop: nat, at: nat, data: seq<byte>)
  {
    && |now| == |mem|
    && forall x :: 0 <= x < |mem| ==>
         now[x] == if start <= x < stop && at <= x < at + |data| then data[x - at] else mem[x]
  }

  lemma PageEnds(p: nat)
    requires Aligned4(p)
    ensures PageOf(p + 256) == PageOf(p) + 256 && Aligned4(PageOf(p + 256))
    ensures Aligned4(PageOf(p) + 256 - p)
  {
    var q, r := p / 256, p % 256;
    DivModUnique(p + 256, 256, q + 1, r);
    assert r % 4 == 0;
    assert PageOf(p) + 256 - p == 4 * (64 - r / 4);
    assert PageOf(p + 256) == 4 * (64 * q + 64);
  }

  lemma SamePageIff(p: nat, n: nat)
    requires n > 0
    ensures PageOf(p + n - 1) == PageOf(p) <==> p + n <= PageOf(p) + 256
  {
    var q, r := p / 256, p % 256;
    if r + n <= 256 {
      DivModUnique(p + n - 1, 256, q, r + n - 1);
    }
  }

  /** The clip of a run of `n` bytes to the page it starts in. */
  lemma PageClip(p: nat, n: nat)
    requires n > 0 && Aligned4(p) && Aligned4(n)
    ensures var m := if PageOf(p + n - 1) != PageOf(p) then PageOf(p + 256) - p else n;
      && 0 < m <= n && m <= 256 && Aligned4(m) && PageOf(p) == PageOf(p + m - 1)
      && (m == n || p + m == PageOf(p + 256))
      && p + m <= PageOf(p + 256) && Aligned4(PageOf(p + 256))
  {
    PageEnds(p);
    SamePageIff(p, n);
    SamePageIff(p, PageOf(p) + 256 - p);
    hide Aligned4;
  }

  lemma AlignedRest(addr: nat, n: nat, p: nat)
    requires Aligned4(addr) && Aligned4(n) && Aligned4(p) && p <= addr + n
    ensures Aligned4(addr + n - p)
  {
  }

  lemma PageInSector(p: nat, s: nat)
    requires s % 0x1_0000 == 0 && s <= p < s + 0x1_0000
    ensures PageOf(p + 256) <= s + 0x1_0000
  {
    var q := s / 0x1_0000;
    assert s == 256 * (256 * q);
  }

  /** One more page. */
  lemma PageFills(mem: seq<byte>, before: seq<byte>, after: seq<byte>, start: nat, p: nat, n: nat,
                  limit: nat, at: nat, data: seq<byte>)
    requires at <= p && p + n <= at + |data| <= |mem| && start <= p && p + n <= limit
    requires Programmable(mem, start, at, data, limit) && Filled(mem, before, start, p, at, data)
    requires after == Burn(before, p, data[p - at..p - at + n])
    ensures Filled(mem, after, start, p + n, at, data)
    ensures after[p..p + n] == data[p - at..p - at + n]
  {
    forall x | 0 <= x < |mem|
      ensures after[x] == if start <= x < p + n && at <= x < at + |data| then data[x - at] else mem[x]
    {
    }
  }

  /** Past the data there is nothing more to fill. */
  lemma FilledBeyond(mem: seq<byte>, now: seq<byte>, start: nat, stop: nat, further: nat, at: nat, data: seq<byte>)
    requires Filled(mem, now, start, stop, at, data) && stop <= further
    requires stop == further || at + |data| <= stop
    ensures Filled(mem, now, start, further, at, data)
  {
  }

  lemma NothingFilled(mem: seq<byte>, start: nat, at: nat, data: seq<byte>)
    ensures Filled(mem, mem, start, start, at, data)
  {
  }

  // ---- What a sector is left with ------------------------------------------------------------

  /** The part of the data that falls in the sector at `s`. */
  function Low(at: nat, s: nat): nat {
    if at > s then at else s
  }

  function High(at: nat, n: nat, s: nat): nat {
    if at + n > s + 0x1_0000 then s + 0x1_0000 else at + n
  }

  ghost predicate Overlaps(at: nat, n: nat, s: nat)
  {
    s % 0x1_0000 == 0 && Low(at, s) <= High(at, n, s)
  }

  /** The sector at `s` is as a write leaves it; everything else is as it was. */
  ghost predicate SectorWritten(mem: seq<byte>, now: seq<byte>, at: nat, data: seq<byte>, s: nat)
    requires at + |data| <= |mem|
  {
    && |now| == |mem|
    && forall x :: 0 <= x < |mem| ==>
         now[x] == if s <= x < s + 0x1_0000 then Written(mem, at, data)[x] else mem[x]
  }

  lemma SectorMember(x: nat, s: nat)
    requires s % 0x1_0000 == 0
    ensures SectorOf(x) == s <==> s <= x < s + 0x1_0000
  {
  }

  /** The scan of the sector's part of the data decides whether the sector is erased. */
  lemma ScanDecides(mem: seq<byte>, at: nat, data: seq<byte>, s: nat)
    requires at + |data| <= |mem| && Overlaps(at, |data|, s)
    ensures NeedsErase(mem, at, data, s) <==>
      !Programmable(mem, Low(at, s), at, data, s + 0x1_0000)
  {
    if NeedsErase(mem, at, data, s) {
      var i :| at <= i < at + |data| && SectorOf(i) == s && And(mem[i], data[i - at]) != data[i - at];
      SectorMember(i, s);
    } else {
      forall x | Low(at, s) <= x < s + 0x1_0000 && at <= x < at + |data|
        ensures And(mem[x], data[x - at]) == data[x - at]
      {
        SectorMember(x, s);
      }
    }
  }

  lemma SectorErased(mem: seq<byte>, now: seq<byte>, at: nat, data: seq<byte>, s: nat)
    requires at + |data| <= |mem| && Overlaps(at, |data|, s) && NeedsErase(mem, at, data, s)
    requires Filled(Erase(mem, s), now, Low(at, s), s + 0x1_0000, at, data)
    ensures SectorWritten(mem, now, at, data, s)
  {
    hide NeedsErase;
    forall x | 0 <= x < |mem|
      ensures now[x] == if s <= x < s + 0x1_0000 then Written(mem, at, data)[x] else mem[x]
    {
      SectorMember(x, s);
    }
  }

  /** Without an erase, what lies below the first difference is already right. */
  lemma SectorProgrammed(mem: seq<byte>, now: seq<byte>, at: nat, data: seq<byte>, s: nat, start: nat)
    requires at + |data| <= |mem| && Overlaps(at, |data|, s) && !NeedsErase(mem, at, data, s)
    requires Matches(mem, at, data, s, start)
    requires Filled(mem, now, start, s + 0x1_0000, at, data) && Low(at, s) <= start
    ensures SectorWritten(mem, now, at, data, s)
  {
    hide NeedsErase;
    forall x | 0 <= x < |mem|
      ensures now[x] == if s <= x < s + 0x1_0000 then Written(mem, at, data)[x] else mem[x]
    {
      SectorMember(x, s);
    }
  }

  /** From 0xff every byte can be programmed. */
  lemma ErasedProgrammable(mem: seq<byte>, at: nat, data: seq<byte>, s: nat)
    requires at + |data| <= |mem|
    ensures Programmable(Erase(mem, s), Low(at, s), at, data, s + 0x1_0000)
  {
    forall x | Low(at, s) <= x < s + 0x1_0000 && at <= x < at + |data|
      ensures And(Erase(mem, s)[x], data[x - at]) == data[x - at]
    {
      AndFF(data[x - at]);
    }
  }

  /** The same sector and range, on the bus and within the flash. */
  lemma Geometry(b: nat, addr: nat, n: nat, s: nat)
    requires Masked(b) && b <= addr && b <= s && Overlaps(addr, n, s)
    ensures Low(addr, s) == b + Low(addr - b, s - b) && High(addr, n, s) == b + High(addr - b, n, s - b)
    ensures Overlaps(addr - b, n, s - b)
    ensures addr <= Low(addr, s) && s <= Low(addr, s) <= High(addr, n, s) <= addr + n
    ensures High(addr, n, s) <= s + 0x1_0000
  {
    assert s - b == 0x1_0000 * (s / 0x1_0000 - 256 * (b / 0x100_0000));
  }

  lemma RangeAligned(addr: nat, n: nat, s: nat)
    requires 0 < addr && Aligned4(addr) && Aligned4(n) && Overlaps(addr, n, s)
    ensures Low(addr, s) > 0 && Low(addr, s) <= High(addr, n, s)
    ensures Aligned4(Low(addr, s)) && Aligned4(High(addr, n, s) - Low(addr, s))
  {
    WholeSector(s);
    AlignedSum(addr, n);
    AlignedSum(s, 0x1_0000);
    AlignedGap(Low(addr, s), High(addr, n, s));
    hide Aligned4;
  }

  lemma WholeSector(s: nat)
    requires s % 0x1_0000 == 0
    ensures Aligned4(s)
  {
    DivModUnique(s, 4, 0x4000 * (s / 0x1_0000), 0);
  }

  lemma AlignedSum(a: nat, b: nat)
    requires Aligned4(a) && Aligned4(b)
    ensures Aligned4(a + b)
  {
  }

  lemma AlignedGap(a: nat, b: nat)
    requires a <= b
    ensures Aligned4(a) && Aligned4(b) ==> Aligned4(b - a)
  {
  }

  /** The sector's part of the data is already there, as far as `stop`. */
  ghost predicate Matches(mem: seq<byte>, at: nat, data: seq<byte>, s: nat, stop: nat)
    requires at + |data| <= |mem|
  {
    forall x :: Low(at, s) <= x < stop && x < High(at, |data|, s) ==> mem[x] == data[x - at]
  }

  /** `there` and `want` are the sector's part of memory and of the data. */
  ghost predicate Seen(mem: seq<byte>, at: nat, data: seq<byte>, s: nat, there: seq<byte>, want: seq<byte>)
  {
    && at + |data| <= |mem| && Overlaps(at, |data|, s)
    && there == mem[Low(at, s)..High(at, |data|, s)]
    && want == data[Low(at, s) - at..High(at, |data|, s) - at]
  }

  lemma SeenFrom(mem: seq<byte>, at: nat, data: seq<byte>, s: nat, there: seq<byte>, want: seq<byte>)
    requires at + |data| <= |mem| && Overlaps(at, |data|, s) && at <= Low(at, s) && High(at, |data|, s) <= at + |data|
    requires there == mem[Low(at, s)..High(at, |data|, s)]
    requires want == data[Low(at, s) - at..High(at, |data|, s) - at]
    ensures Seen(mem, at, data, s, there, want)
  {
  }

  /** Programming `want` over `there` gives `want`. */
  ghost predicate AllKept(there: seq<byte>, want: seq<byte>)
    requires |there| == |want|
  {
    forall i :: 0 <= i < |want| ==> And(there[i], want[i]) == want[i]
  }

  lemma SurveyDecides(mem: seq<byte>, at: nat, data: seq<byte>, s: nat, there: seq<byte>, want: seq<byte>)
    requires Seen(mem, at, data, s, there, want)
    ensures |there| == |want|
    ensures NeedsErase(mem, at, data, s) <==> !AllKept(there, want)
  {
    ScanDecides(mem, at, data, s);
    hide NeedsErase, And, Seen;
    if AllKept(there, want) {
      KeptProgrammable(mem, at, data, s, there, want);
    }
    if Programmable(mem, Low(at, s), at, data, s + 0x1_0000) {
      ProgrammableKept(mem, at, data, s, there, want);
    }
  }

  lemma KeptProgrammable(mem: seq<byte>, at: nat, data: seq<byte>, s: nat, there: seq<byte>, want: seq<byte>)
    requires at + |data| <= |mem| && Seen(mem, at, data, s, there, want) && |there| == |want| && AllKept(there, want)
    ensures Programmable(mem, Low(at, s), at, data, s + 0x1_0000)
  {
    hide And, Seen;
    var lo := Low(at, s);
    forall x | lo <= x < s + 0x1_0000 && at <= x < at + |data|
      ensures And(mem[x], data[x - at]) == data[x - at]
    {
      SeenAt(mem, at, data, s, there, want, x);
      assert And(there[x - lo], want[x - lo]) == want[x - lo];
    }
  }

  lemma SeenAt(mem: seq<byte>, at: nat, data: seq<byte>, s: nat, there: seq<byte>, want: seq<byte>, x: nat)
    requires Seen(mem, at, data, s, there, want) && Low(at, s) <= x < s + 0x1_0000 && x < at + |data|
    ensures |there| == |want| && at <= x && x - Low(at, s) < |want|
    ensures there[x - Low(at, s)] == mem[x] && want[x - Low(at, s)] == data[x - at]
  {
  }

  lemma ProgrammableKept(mem: seq<byte>, at: nat, data: seq<byte>, s: nat, there: seq<byte>, want: seq<byte>)
    requires Seen(mem, at, data, s, there, want) && |there| == |want|
    requires Programmable(mem, Low(at, s), at, data, s + 0x1_0000)
    ensures AllKept(there, want)
  {
    hide And, Seen, Programmable;
    var lo := Low(at, s);
    forall i | 0 <= i < |want|
      ensures And(there[i], want[i]) == want[i]
    {
      SeenIs(mem, at, data, s, there, want, i);
      ProgrammableAt(mem, lo, at, data, s + 0x1_0000, lo + i);
    }
  }

  lemma SeenIs(mem: seq<byte>, at: nat, data: seq<byte>, s: nat, there: seq<byte>, want: seq<byte>, i: nat)
    requires Seen(mem, at, data, s, there, want) && i < |want|
    ensures var x := Low(at, s) + i;
      && i < |there| && at <= x < at + |data| <= |mem| && x < s + 0x1_0000
      && there[i] == mem[x] && want[i] == data[x - at]
  {
  }

  lemma ProgrammableAt(mem: seq<byte>, start: nat, at: nat, data: seq<byte>, limit: nat, x: nat)
    requires at + |data| <= |mem| && Programmable(mem, start, at, data, limit)
    requires start <= x < limit && at <= x < at + |data|
    ensures And(mem[x], data[x - at]) == data[x - at]
  {
    hide And;
  }

  lemma SurveyMatches(mem: seq<byte>, at: nat, data: seq<byte>, s: nat, there: seq<byte>, want: seq<byte>, n: nat)
    requires at + |data| <= |mem| && Overlaps(at, |data|, s)
    requires var lo, hi := Low(at, s), High(at, |data|, s); there == mem[lo..hi] && want == data[lo - at..hi - at]
    requires n <= |want| && n <= |there| && there[..n] == want[..n]
    ensures Matches(mem, at, data, s, Low(at, s) + n)
  {
    var lo, hi := Low(at, s), High(at, |data|, s);
    forall x | lo <= x < lo + n && x < hi
      ensures mem[x] == data[x - at]
    {
      assert there[..n][x - lo] == want[..n][x - lo];
    }
  }

  /** What the comparison has established about the sector. */
  ghost predicate Surveyed(mem: seq<byte>, at: nat, data: seq<byte>, s: nat, base: nat, needErase: bool, newv: nat)
  {
    && at + |data| <= |mem|
    && (needErase <==> NeedsErase(mem, at, data, s))
    && (newv == 0 ==> !needErase && Matches(mem, at, data, s, High(at, |data|, s)))
    && (newv != 0 ==> base <= newv && (!needErase ==> Matches(mem, at, data, s, newv - base)))
  }

  lemma Conclude(mem: seq<byte>, at: nat, data: seq<byte>, s: nat, base: nat, there: seq<byte>, want: seq<byte>,
                 needErase: bool, newv: nat)
    requires Seen(mem, at, data, s, there, want)
    requires |there| == |want| && (!needErase <==> AllKept(there, want))
    requires newv == 0 ==> !needErase && there == want
    requires newv != 0 ==> base + Low(at, s) <= newv < base + High(at, |data|, s)
    requires !needErase && newv != 0 ==> there[..newv - base - Low(at, s)] == want[..newv - base - Low(at, s)]
    ensures Surveyed(mem, at, data, s, base, needErase, newv)
  {
    hide NeedsErase, Matches, AllKept;
    SurveyDecides(mem, at, data, s, there, want);
    if !needErase {
      if newv == 0 {
        SurveyMatches(mem, at, data, s, there, want, |want|);
      } else {
        SurveyMatches(mem, at, data, s, there, want, newv - base - Low(at, s));
      }
    }
  }

  lemma SectorMatches(mem: seq<byte>, at: nat, data: seq<byte>, s: nat)
    requires at + |data| <= |mem| && Overlaps(at, |data|, s) && !NeedsErase(mem, at, data, s)
    requires Matches(mem, at, data, s, High(at, |data|, s))
    ensures SectorWritten(mem, mem, at, data, s)
  {
    SectorProgrammed(mem, mem, at, data, s, s + 0x1_0000);
  }

  lemma ProgrammableLater(mem: seq<byte>, at: nat, data: seq<byte>, s: nat, start: nat)
    requires at + |data| <= |mem| && Low(at, s) <= start
    requires Programmable(mem, Low(at, s), at, data, s + 0x1_0000)
    ensures Programmable(mem, start, at, data, s + 0x1_0000)
  {
  }

  lemma DisableLetGo(f: Flash, n: nat, m: nat)
    requires Calm(f) && !f.wip
    ensures var g := Ticks(Deselect(Ticks(PushBytes(f, [F_WRDI]), n)), m);
      Calm(g) && !g.wip && !g.wel && g.mem == f.mem
  {
    hide PushByte, Deselect;
    PushesKeep(f, [F_WRDI]);
    QuietTicks(PushBytes(f, [F_WRDI]), n);
    DisableEffect(f);
    QuietTicks(Deselect(PushBytes(f, [F_WRDI])), m);
  }

  // ---- The whole write --------------------------------------------------------------------

  /** No sector that must be erased lies where the simulator refuses to erase. */
  ghost predicate Erasable(mem: seq<byte>, at: nat, data: seq<byte>)
    requires at + |data| <= |mem|
  {
    forall s: nat :: s % 0x1_0000 == 0 && NeedsErase(mem, at, data, s) ==> s < ERASE_LIMIT
  }

  /** The sectors below `s` are done. */
  ghost predicate Progress(mem: seq<byte>, now: seq<byte>, at: nat, data: seq<byte>, s: nat)
    requires at + |data| <= |mem|
  {
    && |now| == |mem|
    && forall x :: 0 <= x < |mem| ==> now[x] == if x < s then Written(mem, at, data)[x] else mem[x]
  }

  /** Whether a sector is erased depends on that sector alone. */
  lemma NeedIsLocal(mem: seq<byte>, now: seq<byte>, at: nat, data: seq<byte>, s: nat)
    requires at + |data| <= |mem| == |now| && s % 0x1_0000 == 0
    requires forall x :: s <= x < |mem| ==> now[x] == mem[x]
    ensures NeedsErase(now, at, data, s) <==> NeedsErase(mem, at, data, s)
  {
    if NeedsErase(now, at, data, s) {
      var i :| at <= i < at + |data| && SectorOf(i) == s && And(now[i], data[i - at]) != data[i - at];
      assert And(mem[i], data[i - at]) != data[i - at];
    }
    if NeedsErase(mem, at, data, s) {
      var i :| at <= i < at + |data| && SectorOf(i) == s && And(mem[i], data[i - at]) != data[i - at];
      assert And(now[i], data[i - at]) != data[i - at];
    }
  }

  lemma ProgressStep(mem: seq<byte>, now: seq<byte>, next: seq<byte>, at: nat, data: seq<byte>, s: nat)
    requires at + |data| <= |mem| && s % 0x1_0000 == 0 && Progress(mem, now, at, data, s)
    requires SectorWritten(now, next, at, data, s)
    ensures Progress(mem, next, at, data, s + 0x1_0000)
  {
    hide NeedsErase;
    NeedIsLocal(mem, now, at, data, s);
    forall x | 0 <= x < |mem|
      ensures next[x] == if x < s + 0x1_0000 then Written(mem, at, data)[x] else mem[x]
    {
      SectorMember(x, s);
    }
  }

  lemma UntouchedSector(mem: seq<byte>, at: nat, data: seq<byte>, x: nat)
    requires at + |data| <= |mem| && x < |mem|
    requires x < SectorOf(at) || at + |data| <= SectorOf(x)
    ensures Written(mem, at, data)[x] == mem[x]
  {
    if NeedsErase(mem, at, data, SectorOf(x)) {
      var i :| at <= i < at + |data| && SectorOf(i) == SectorOf(x) && And(mem[i], data[i - at]) != data[i - at];
      if x < SectorOf(at) {
        SectorMember(x, SectorOf(x));
        SectorsOrdered(x, at, i);
      }
      assert false;
    }
  }

  lemma SectorsOrdered(x: nat, at: nat, i: nat)
    requires x < SectorOf(at) && at <= i
    ensures SectorOf(x) != SectorOf(i)
  {
    assert SectorOf(at) == 0x1_0000 * (at / 0x1_0000) && SectorOf(i) == 0x1_0000 * (i / 0x1_0000);
  }

  /** Before the first sector of the range there is nothing to do. */
  lemma ProgressStarts(mem: seq<byte>, at: nat, data: seq<byte>)
    requires at + |data| <= |mem|
    ensures Progress(mem, mem, at, data, SectorOf(at))
  {
    hide NeedsErase, Written;
    forall x | 0 <= x < |mem|
      ensures mem[x] == if x < SectorOf(at) then Written(mem, at, data)[x] else mem[x]
    {
      if x < SectorOf(at) {
        UntouchedSector(mem, at, data, x);
      }
    }
  }

  /** Past the last one the write is complete. */
  lemma ProgressEnds(mem: seq<byte>, now: seq<byte>, at: nat, data: seq<byte>, s: nat)
    requires at + |data| <= |mem| && s % 0x1_0000 == 0 && at + |data| <= s && Progress(mem, now, at, data, s)
    ensures now == Written(mem, at, data)
  {
    hide NeedsErase, Written;
    forall x | 0 <= x < |mem|
      ensures now[x] == Written(mem, at, data)[x]
    {
      if x >= s {
        SectorMonotone(s, x);
        UntouchedSector(mem, at, data, x);
      }
    }
  }

  lemma SectorMonotone(s: nat, x: nat)
    requires s % 0x1_0000 == 0 && s <= x
    ensures s <= SectorOf(x)
  {
  }

  /** Sectors of the flash sit at the same offsets on the bus. */
  lemma SectorShift(b: nat, a: nat)
    requires Masked(b)
    ensures SectorOf(b + a) == b + SectorOf(a) && (SectorOf(b + a) - b) % 0x1_0000 == 0
  {
    DivModUnique(b + a, 0x1_0000, 256 * (b / 0x100_0000) + a / 0x1_0000, a % 0x1_0000);
  }

  /** While the loop runs, the sector has something to do with the range. */
  lemma LoopSector(b: nat, addr: nat, n: nat, s: nat)
    requires SectorAt(b, s) && SectorOf(addr) <= s
    ensures b <= s && s % 0x1_0000 == 0 && (s - b) % 0x1_0000 == 0
    ensures s < SectorOf(addr + n + 0xffff) ==> Overlaps(addr, n, s)
    ensures s >= SectorOf(addr + n + 0xffff) ==> addr + n <= s
  {
  }

  /** A sector of the flash that starts no earlier than the flash does. */
  predicate SectorAt(b: nat, s: nat) {
    b <= s && s % 0x1_0000 == 0 && (s - b) % 0x1_0000 == 0
  }

  lemma SectorAfter(b: nat, s: nat)
    requires SectorAt(b, s)
    ensures SectorAt(b, s + 0x1_0000)
  {
  }

  const F_EMPTY := 0x000
  const F_PP := 0x002
  const F_WRDI := 0x004
  const F_RDSR1 := 0x005
  const F_WREN := 0x006
  const F_SE := 0x0d8
  const F_END := 0x100

  class FlashDrvr {
    const bus: DevBus

    constructor (bus: DevBus)
      ensures this.bus == bus
    {
      this.bus := bus;
    }

    /** Deselect, from a device with nothing armed. */
    method End()
      requires bus.Mapped() && Calm(bus.flash)
      modifies bus
      ensures bus.Mapped() && !bus.config && Calm(bus.flash) && bus.flash.mem == old(bus.flash.mem)
      ensures !old(bus.flash.wip) ==> !bus.flash.wip && bus.flash.wel == old(bus.flash.wel)
    {
      hide Deselect, Calm, Ticks, DevBus.Connected;
      ghost var f := bus.flash;
      ghost var n, m := bus.WriteConfig(F_END);
      CalmEnds(f, n, m);
    }

    /** flwait(): wait for the write or erase in progress to end. */
    method Wait()
      requires bus.Mapped() && Calm(bus.flash)
      modifies bus
      ensures bus.Quiet() && bus.flash.mem == old(bus.flash.mem)
    {
      hide PushByte, Deselect, Polling, Ticks, Calm, DevBus.Connected;
      End();
      ghost var mem := bus.flash.mem;
      ghost var status := StartPolling();
      var again := true;
      while again
        invariant bus.Mapped() && bus.config && Polling(bus.flash, mem, status)
        invariant again ==> bus.flash.count + 8 * Patience(bus.flash, status) <= 8 * (TSE + 3)
        invariant !again ==> !bus.flash.wip
        decreases again, Patience(bus.flash, status)
      {
        again, status := PollOnce(mem, status);
      }
      ghost var f := bus.flash;
      ghost var n, m := bus.WriteConfig(F_END);
      PollEnds(f, mem, status, n, m);
    }

    method PollOnce(ghost mem: seq<byte>, ghost status: byte) returns (again: bool, ghost next: byte)
      requires bus.Mapped() && bus.config && Polling(bus.flash, mem, status)
      requires bus.flash.count + 8 * Patience(bus.flash, status) <= 8 * (TSE + 3)
      modifies bus
      ensures bus.Mapped() && bus.config && Polling(bus.flash, mem, next)
      ensures !again ==> !bus.flash.wip
      ensures again ==>
        && Patience(bus.flash, next) < Patience(old(bus.flash), status)
        && bus.flash.count + 8 * Patience(bus.flash, next) <= 8 * (TSE + 3)
    {
      hide PushByte, Polling, ByteOf, DevBus.Connected;
      ghost var f := bus.flash;
      ReplyIsStatus(f, mem, status);
      ghost var n, m := bus.WriteConfig(F_EMPTY);
      next := PollCycle(f, mem, status, n, m);
      var sr;
      ghost var k;
      f := bus.flash;
      sr, k := bus.ReadConfig();
      PollAges(f, mem, next, k);
      again := sr % 2 == 1;
    }

    method StartPolling() returns (ghost status: byte)
      requires bus.Mapped() && Calm(bus.flash)
      modifies bus
      ensures bus.Mapped() && bus.config && Polling(bus.flash, old(bus.flash.mem), status)
      ensures bus.flash.count + 8 * Patience(bus.flash, status) <= 8 * (TSE + 3)
    {
      hide PushByte, DevBus.Connected;
      ghost var f := bus.flash;
      ghost var n, m := bus.WriteConfig(F_RDSR1);
      CalmTicks(f, n);
      status := Ticks(f, n).Sreg();
      PollStarts(Ticks(f, n));
      PollAges(PushByte(Ticks(f, n), 0x05), f.mem, status, m);
    }

    /** One byte of a command, after those in `sent`, to a device that was at `f`. */
    method Send(b: byte, ghost f: Flash, ghost sent: seq<byte>)
      requires bus.Mapped() && Calm(f) && !f.wip && bus.flash == PushBytes(f, sent)
      modifies bus
      ensures bus.Mapped() && bus.flash == PushBytes(f, sent + [b])
    {
      hide PushByte, DevBus.Connected;
      ghost var n, m := bus.WriteConfig(b);
      PushesKeep(f, sent);
      QuietTicks(PushBytes(f, sent), n);
      PushOne(f, sent, b);
      PushesKeep(f, sent + [b]);
      QuietTicks(PushBytes(f, sent + [b]), m);
    }

    /** The write-enable sequence. */
    method EnableWrites()
      requires bus.Quiet()
      modifies bus
      ensures bus.Quiet() && bus.flash.wel && bus.flash.mem == old(bus.flash.mem)
    {
      hide PushByte, Deselect, DevBus.Connected;
      End();
      ghost var f := bus.flash;
      assert PushBytes(f, []) == f;
      Send(F_WREN, f, []);
      assert [] + [F_WREN as byte] == [F_WREN];
      ghost var n, m := bus.WriteConfig(F_END);
      EnableLetGo(f, n, m);
    }

    method SendAddress(op: byte, a: nat, ghost f: Flash)
      requires bus.Mapped() && Calm(f) && !f.wip && bus.flash == f
      modifies bus
      ensures bus.Mapped() && bus.flash == PushBytes(f, [op] + AddressBytes(a))
    {
      hide PushByte, DevBus.Connected;
      ghost var b := AddressBytes(a);
      assert PushBytes(f, []) == f;
      Send(op, f, []);
      Send(a / 0x1_0000 % 256, f, [] + [op]);
      Send(a / 256 % 256, f, [] + [op] + [b[0]]);
      Send(a % 256, f, [] + [op] + [b[0]] + [b[1]]);
      assert [] + [op] + [b[0]] + [b[1]] + [b[2]] == [op] + b;
    }

    method EraseSector(sector: nat, verify: bool) returns (ok: bool)
      requires bus.Quiet() && sector % 0x1_0000 == 0
      requires bus.flashBase <= sector < bus.flashBase + ERASE_LIMIT
      modifies bus
      ensures bus.Quiet() && bus.flash.mem == Erase(old(bus.flash.mem), sector - bus.flashBase)
      ensures ok
    {
      hide PushByte, Deselect, Erase, DevBus.Connected;
      var flashaddr := sector % 0x100_0000;
      MaskOffset(bus.flashBase, sector);
      ghost var mem := bus.flash.mem;
      SendErase(flashaddr);
      ok := true;
      if verify {
        ok := VerifyErase(flashaddr, mem);
      }
    }

    method SendErase(flashaddr: nat)
      requires bus.Quiet() && flashaddr % 0x1_0000 == 0 && flashaddr < ERASE_LIMIT
      modifies bus
      ensures bus.Quiet() && bus.flash.mem == Erase(old(bus.flash.mem), flashaddr)
    {
      hide PushByte, Deselect, Erase, DevBus.Connected;
      EnableWrites();
      ghost var f := bus.flash;
      SendAddress(F_SE, flashaddr, f);
      ghost var n, m := bus.WriteConfig(F_END);
      EraseLetGo(f, flashaddr, n, m);
      Wait();
    }

    /** The read-back after an erase: it finds nothing but ones. */
    method VerifyErase(flashaddr: nat, ghost mem: seq<byte>) returns (ok: bool)
      requires bus.Quiet() && flashaddr % 0x1_0000 == 0 && flashaddr < ERASE_LIMIT && |mem| == SIZE
      requires bus.flash.mem == Erase(mem, flashaddr)
      modifies bus
      ensures bus.Quiet() && bus.flash.mem == old(bus.flash.mem) && ok
    {
      hide Erase, WordAt, DevBus.Connected;
      var i := 0;
      while i < 256
        invariant 0 <= i <= 256
        invariant bus.Quiet() && bus.flash.mem == old(bus.flash.mem)
      {
        var page := bus.ReadWords(bus.flashBase + flashaddr + 256 * i, 64);
        ErasedPage(mem, flashaddr, i, page);
        ok := AllOnes(page);
        if !ok {
          return;
        }
        i := i + 1;
      }
      ok := true;
    }

    /** page_program(): `data` is what the source's pointer and length delimit. */
    method PageProgram(addr: nat, data: seq<byte>, verify: bool) returns (ok: bool)
      requires bus.Quiet() && bus.flashBase <= addr && addr + |data| <= bus.flashBase + SIZE
      requires 0 < |data| <= 256 && PageOf(addr) == PageOf(addr + |data| - 1)
      requires Aligned4(addr) && Aligned4(|data|)
      modifies bus
      ensures bus.Quiet()
      ensures bus.flash.mem == Burn(old(bus.flash.mem), addr - bus.flashBase, data)
      ensures ok <==> (verify ==>
        bus.flash.mem[addr - bus.flashBase..addr - bus.flashBase + |data|] == data)
    {
      hide PushByte, Deselect, Burn, DevBus.Connected;
      var flashaddr := addr % 0x100_0000;
      MaskOffset(bus.flashBase, addr);
      var emptyPage, words := Gather(data);
      if emptyPage {
        BurnBlank(bus.flash.mem, flashaddr, data);
      } else {
        SendPage(flashaddr, data);
      }
      ok := true;
      if verify {
        ok := VerifyPage(addr, data, words);
      }
    }

    /** The words of the page, and whether all of them are 0xffffffff. */
    method Gather(data: seq<byte>) returns (emptyPage: bool, words: seq<word>)
      requires Aligned4(|data|)
      ensures emptyPage ==> forall k :: 0 <= k < |data| ==> data[k] == 0xff
      ensures |words| == |data| / 4
      ensures forall k :: 0 <= k < |words| ==> words[k] == BuildWord(data[4 * k..])
    {
      hide BuildWord, DevBus.Connected;
      emptyPage, words := true, [];
      while 4 * |words| < |data|
        invariant 4 * |words| <= |data|
        invariant forall k :: 0 <= k < |words| ==> words[k] == BuildWord(data[4 * k..])
        invariant emptyPage ==> forall k :: 0 <= k < 4 * |words| ==> data[k] == 0xff
      {
        var rest := data[4 * |words|..];
        var v := BuildWord(rest);
        if v != Ones(32) {
          emptyPage := false;
        } else {
          OnesWord([0xff, 0xff, 0xff, 0xff]);
          WordsEqualIff(rest, [0xff, 0xff, 0xff, 0xff]);
          assert forall j :: 0 <= j < 4 ==> rest[..4][j] == 0xff;
        }
        words := words + [v];
      }
    }

    method SendPage(flashaddr: nat, data: seq<byte>)
      requires bus.Quiet() && flashaddr + |data| <= SIZE && 0 < |data| <= 256
      requires PageOf(flashaddr + bus.flashBase) == PageOf(flashaddr + bus.flashBase + |data| - 1)
      modifies bus
      ensures bus.Quiet() && bus.flash.mem == Burn(old(bus.flash.mem), flashaddr, data)
    {
      hide PushByte, Deselect, Burn, DevBus.Connected;
      EnableWrites();
      End();
      ghost var f := bus.flash;
      SendAddress(F_PP, flashaddr, f);
      var i := 0;
      assert ProgramCommand(flashaddr, data[..0]) == [F_PP as byte] + AddressBytes(flashaddr);
      while i < |data|
        invariant 0 <= i <= |data|
        invariant bus.Mapped() && bus.flash == PushBytes(f, ProgramCommand(flashaddr, data[..i]))
      {
        Send(data[i], f, ProgramCommand(flashaddr, data[..i]));
        assert ProgramCommand(flashaddr, data[..i]) + [data[i]] == ProgramCommand(flashaddr, data[..i + 1]);
        i := i + 1;
      }
      assert data[..i] == data;
      SamePage(bus.flashBase, flashaddr, |data|);
      ghost var n, m := bus.WriteConfig(F_END);
      ProgramLetGo(f, flashaddr, data, n, m);
      Wait();
    }

    method VerifyPage(addr: nat, data: seq<byte>, words: seq<word>) returns (ok: bool)
      requires bus.Quiet() && bus.flashBase <= addr && addr + |data| <= bus.flashBase + SIZE
      requires Aligned4(addr) && Aligned4(|data|) && |words| == |data| / 4
      requires forall k :: 0 <= k < |words| ==> words[k] == BuildWord(data[4 * k..])
      modifies bus
      ensures bus.Quiet() && bus.flash.mem == old(bus.flash.mem)
      ensures ok <==> bus.flash.mem[addr - bus.flashBase..addr - bus.flashBase + |data|] == data
    {
      hide BuildWord, DevBus.Connected;
      var buf := ReadRun(addr, |data|);
      ghost var there := bus.flash.mem[addr - bus.flashBase..addr - bus.flashBase + |data|];
      ok := CompareWords(buf, words, there, data);
    }

    /** readi() and byteswapbuf(): bytes of the flash, in order. */
    method ReadBytes(addr: nat, n: nat) returns (bytes: seq<byte>)
      requires bus.Quiet() && Aligned4(addr) && Aligned4(n)
      requires bus.flashBase <= addr && addr + n <= bus.flashBase + SIZE
      modifies bus
      ensures bus.Quiet() && bus.flash.mem == old(bus.flash.mem)
      ensures bytes == bus.flash.mem[addr - bus.flashBase..addr - bus.flashBase + n]
    {
      hide BuildWord, DevBus.Connected;
      var words := ReadRun(addr, n);
      bytes := SwapBytes(words, bus.flash.mem[addr - bus.flashBase..addr - bus.flashBase + n]);
    }

    /** readi(), its words seen as bytes. */
    method ReadRun(addr: nat, n: nat) returns (words: seq<word>)
      requires bus.Quiet() && Aligned4(addr) && Aligned4(n)
      requires bus.flashBase <= addr && addr + n <= bus.flashBase + SIZE
      modifies bus
      ensures bus.Quiet() && bus.flash.mem == old(bus.flash.mem)
      ensures |words| == n / 4
      ensures var there := bus.flash.mem[addr - bus.flashBase..addr - bus.flashBase + n];
        forall k :: 0 <= k < |words| ==> words[k] == BuildWord(there[4 * k..])
    {
      hide BuildWord, WordAt, DevBus.Connected;
      words := bus.ReadWords(addr, n / 4);
      forall k | 0 <= k < |words|
        ensures words[k] == BuildWord(bus.flash.mem[addr - bus.flashBase..addr - bus.flashBase + n][4 * k..])
      {
        WordInRun(bus.flash.mem, addr - bus.flashBase, n, k);
      }
    }

    /** The page loop: program from `start` to the end of the data or of the sector. */
    method ProgramFrom(start: nat, s: nat, addr: nat, data: seq<byte>, verify: bool) returns (ok: bool)
      requires bus.Quiet() && bus.flashBase <= addr <= start && addr + |data| <= bus.flashBase + SIZE
      requires Aligned4(start) && Aligned4(|data|) && Aligned4(addr) && s % 0x1_0000 == 0
      requires s <= start < s + 0x1_0000
      requires Programmable(bus.flash.mem, start - bus.flashBase, addr - bus.flashBase, data, s + 0x1_0000 - bus.flashBase)
      modifies bus
      ensures bus.Quiet() && ok
      ensures Filled(old(bus.flash.mem), bus.flash.mem, start - bus.flashBase, s + 0x1_0000 - bus.flashBase,
                     addr - bus.flashBase, data)
    {
      hide DevBus.Connected;
      ghost var b, mem := bus.flashBase, bus.flash.mem;
      assert |mem| == SIZE;
      hide Filled, Programmable, Calm, PageOf, DevBus.Quiet;
      NothingFilled(mem, start - b, addr - b, data);
      var p := start;
      while p < s + 0x1_0000 && p < addr + |data|
        invariant start <= p <= s + 0x1_0000 && Aligned4(p)
        invariant bus.Quiet()
        invariant Filled(mem, bus.flash.mem, start - b, p - b, addr - b, data)
        decreases s + 0x1_0000 - p
      {
        PageInSector(p, s);
        ok := ProgramPiece(p, addr, data, verify, mem, start, s);
        if !ok {
          return;
        }
        p := PageOf(p + 256);
      }
      FilledBeyond(mem, bus.flash.mem, start - b, p - b, s + 0x1_0000 - b, addr - b, data);
      ok := true;
    }

    /** One page of it. */
    method ProgramPiece(p: nat, addr: nat, data: seq<byte>, verify: bool,
                        ghost mem: seq<byte>, ghost start: nat, ghost s: nat) returns (ok: bool)
      requires bus.Quiet() && bus.flashBase <= addr <= p < addr + |data| <= bus.flashBase + SIZE
      requires Aligned4(p) && Aligned4(|data|) && Aligned4(addr) && bus.flashBase <= start <= p
      requires |mem| == SIZE && PageOf(p + 256) <= s + 0x1_0000
      requires Programmable(mem, start - bus.flashBase, addr - bus.flashBase, data, s + 0x1_0000 - bus.flashBase)
      requires Filled(mem, bus.flash.mem, start - bus.flashBase, p - bus.flashBase, addr - bus.flashBase, data)
      modifies bus
      ensures bus.Quiet() && ok && Aligned4(PageOf(p + 256)) && p < PageOf(p + 256)
      ensures Filled(mem, bus.flash.mem, start - bus.flashBase, PageOf(p + 256) - bus.flashBase, addr - bus.flashBase, data)
    {
      hide Filled, Programmable, Burn, Calm, PageOf, Aligned4, Masked, DevBus.Quiet;
      ghost var b, before := bus.flashBase, bus.flash.mem;
      AlignedRest(addr, |data|, p);
      var len := addr + |data| - p;
      PageClip(p, len);
      if PageOf(p + len - 1) != PageOf(p) {
        len := PageOf(p + 256) - p;
      }
      ok := PageProgram(p, data[p - addr..p - addr + len], verify);
      PageFills(mem, before, bus.flash.mem, start - b, p - b, len, s + 0x1_0000 - b, addr - b, data);
      FilledBeyond(mem, bus.flash.mem, start - b, p - b + len, PageOf(p + 256) - b, addr - b, data);
    }

    /** `addr` and `data` lie in the flash and `s` is a sector they may touch. */
    ghost predicate Touches(s: nat, addr: nat, data: seq<byte>)
      reads bus
    {
      && bus.Quiet() && bus.flashBase <= addr && addr + |data| <= bus.flashBase + SIZE
      && Aligned4(addr) && Aligned4(|data|) && bus.flashBase <= s && Overlaps(addr, |data|, s)
    }

    /** Read the sector's part of the range. */
    method Look(s: nat, addr: nat, data: seq<byte>) returns (there: seq<byte>, want: seq<byte>)
      requires Touches(s, addr, data)
      modifies bus
      ensures Touches(s, addr, data) && bus.flash.mem == old(bus.flash.mem)
      ensures |there| == |want| == High(addr, |data|, s) - Low(addr, s)
      ensures Seen(bus.flash.mem, addr - bus.flashBase, data, s - bus.flashBase, there, want)
    {
      hide DevBus.Connected, Seen, Low, High, Overlaps, Aligned4, Masked;
      assert |bus.flash.mem| == SIZE;
      hide Calm;
      Geometry(bus.flashBase, addr, |data|, s);
      RangeAligned(addr, |data|, s);
      var lo, hi := Low(addr, s), High(addr, |data|, s);
      there := ReadBytes(lo, hi - lo);
      want := data[lo - addr..hi - addr];
      SeenFrom(bus.flash.mem, addr - bus.flashBase, data, s - bus.flashBase, there, want);
    }

    /** Compare it with the data. */
    method Survey(s: nat, addr: nat, data: seq<byte>) returns (needErase: bool, newv: nat)
      requires Touches(s, addr, data)
      modifies bus
      ensures Touches(s, addr, data) && bus.flash.mem == old(bus.flash.mem)
      ensures Surveyed(bus.flash.mem, addr - bus.flashBase, data, s - bus.flashBase, bus.flashBase, needErase, newv)
      ensures newv != 0 ==> Low(addr, s) <= newv < High(addr, |data|, s) && Aligned4(newv)
    {
      hide DevBus.Connected, Seen, Surveyed, Calm, AllKept, Low, High, Overlaps, Aligned4, Masked;
      Geometry(bus.flashBase, addr, |data|, s);
      RangeAligned(addr, |data|, s);
      hide DevBus.Quiet;
      var there, want := Look(s, addr, data);
      needErase, newv := Scan(Low(addr, s), there, want);
      Conclude(bus.flash.mem, addr - bus.flashBase, data, s - bus.flashBase, bus.flashBase, there, want, needErase, newv);
    }

    method WriteSector(s: nat, addr: nat, data: seq<byte>, verify: bool) returns (ok: bool)
      requires Touches(s, addr, data)
      requires NeedsErase(bus.flash.mem, addr - bus.flashBase, data, s - bus.flashBase) ==>
        s < bus.flashBase + ERASE_LIMIT
      modifies bus
      ensures bus.Quiet() && ok
      ensures SectorWritten(old(bus.flash.mem), bus.flash.mem, addr - bus.flashBase, data, s - bus.flashBase)
    {
      hide DevBus.Connected;
      ghost var b, mem := bus.flashBase, bus.flash.mem;
      var needErase, newv := Survey(s, addr, data);
      Geometry(b, addr, |data|, s);
      hide Filled, SectorWritten, Matches, Programmable, NeedsErase, Calm, Aligned4, Masked, Low, High, DevBus.Quiet;
      if newv == 0 {
        SectorMatches(mem, addr - b, data, s - b);
        ok := true;
      } else if needErase {
        ok := Rewrite(s, addr, data, verify);
      } else {
        ok := Extend(s, addr, data, verify, newv);
      }
    }

    method Rewrite(s: nat, addr: nat, data: seq<byte>, verify: bool) returns (ok: bool)
      requires Touches(s, addr, data) && s < bus.flashBase + ERASE_LIMIT && Low(addr, s) < s + 0x1_0000
      requires NeedsErase(bus.flash.mem, addr - bus.flashBase, data, s - bus.flashBase)
      modifies bus
      ensures bus.Quiet() && ok
      ensures SectorWritten(old(bus.flash.mem), bus.flash.mem, addr - bus.flashBase, data, s - bus.flashBase)
    {
      hide DevBus.Connected;
      ghost var b, mem := bus.flashBase, bus.flash.mem;
      Geometry(b, addr, |data|, s);
      RangeAligned(addr, |data|, s);
      assert |mem| == SIZE;
      hide Filled, SectorWritten, Programmable, NeedsErase, Erase, Calm, Aligned4, Masked, DevBus.Quiet;
      ok := EraseSector(s, verify);
      var newv := if s < addr then addr else s;
      ErasedProgrammable(mem, addr - b, data, s - b);
      ok := ProgramFrom(newv, s, addr, data, verify);
      SectorErased(mem, bus.flash.mem, addr - b, data, s - b);
    }

    method Extend(s: nat, addr: nat, data: seq<byte>, verify: bool, newv: nat) returns (ok: bool)
      requires Touches(s, addr, data) && Low(addr, s) <= newv < High(addr, |data|, s) && Aligned4(newv)
      requires !NeedsErase(bus.flash.mem, addr - bus.flashBase, data, s - bus.flashBase)
      requires Matches(bus.flash.mem, addr - bus.flashBase, data, s - bus.flashBase, newv - bus.flashBase)
      modifies bus
      ensures bus.Quiet() && ok
      ensures SectorWritten(old(bus.flash.mem), bus.flash.mem, addr - bus.flashBase, data, s - bus.flashBase)
    {
      hide DevBus.Connected, Filled, SectorWritten, Programmable, NeedsErase, Matches;
      ghost var b, mem := bus.flashBase, bus.flash.mem;
      Geometry(b, addr, |data|, s);
      assert |mem| == SIZE;
      hide Calm, Aligned4, Masked, DevBus.Quiet;
      ScanDecides(mem, addr - b, data, s - b);
      ProgrammableLater(mem, addr - b, data, s - b, newv - b);
      ok := ProgramFrom(newv, s, addr, data, verify);
      SectorProgrammed(mem, bus.flash.mem, addr - b, data, s - b, newv - b);
    }

    /** write(): leave the data in its range, erasing only where a bit has to rise, and the flash
        with writes disabled. */
    method Write(addr: nat, data: seq<byte>, verify: bool) returns (ok: bool)
      requires bus.Quiet() && bus.flashBase <= addr && addr + |data| <= bus.flashBase + SIZE
      requires Aligned4(addr) && Aligned4(|data|)
      requires Erasable(bus.flash.mem, addr - bus.flashBase, data)
      modifies bus
      ensures bus.Quiet() && ok
      ensures bus.flash.mem == Written(old(bus.flash.mem), addr - bus.flashBase, data) && !bus.flash.wel
    {
      hide DevBus.Connected;
      ghost var b, mem := bus.flashBase, bus.flash.mem;
      assert |mem| == SIZE;
      SectorShift(b, addr - b);
      ProgressStarts(mem, addr - b, data);
      var s := SectorOf(addr);
      hide SectorAt, Progress, Written, Calm, Aligned4, Masked, SectorOf, SectorWritten, Erasable, Overlaps, DevBus.Quiet;
      while s < SectorOf(addr + |data| + 0xffff)
        invariant SectorAt(b, s) && SectorOf(addr) <= s
        invariant bus.Quiet() && Progress(mem, bus.flash.mem, addr - b, data, s - b)
      {
        LoopSector(b, addr, |data|, s);
        ok := WriteNext(s, addr, data, verify, mem);
        if !ok {
          return;
        }
        SectorAfter(b, s);
        s := s + 0x1_0000;
      }
      LoopSector(b, addr, |data|, s);
      ProgressEnds(mem, bus.flash.mem, addr - b, data, s - b);
      DisableWrites();
      ok := true;
    }

    method WriteNext(s: nat, addr: nat, data: seq<byte>, verify: bool, ghost mem: seq<byte>) returns (ok: bool)
      requires Touches(s, addr, data) && |mem| == SIZE && SectorAt(bus.flashBase, s)
      requires Erasable(mem, addr - bus.flashBase, data)
      requires Progress(mem, bus.flash.mem, addr - bus.flashBase, data, s - bus.flashBase)
      modifies bus
      ensures bus.Quiet() && ok
      ensures Progress(mem, bus.flash.mem, addr - bus.flashBase, data, s + 0x1_0000 - bus.flashBase)
    {
      hide DevBus.Connected;
      ghost var b, now := bus.flashBase, bus.flash.mem;
      NeedIsLocal(mem, now, addr - b, data, s - b);
      hide Progress, SectorWritten, NeedsErase, Calm, Aligned4, Masked, Low, High, Overlaps, DevBus.Quiet;
      ok := WriteSector(s, addr, data, verify);
      ProgressStep(mem, now, bus.flash.mem, addr - b, data, s - b);
    }

    method DisableWrites()
      requires bus.Quiet()
      modifies bus
      ensures bus.Quiet() && !bus.flash.wel && bus.flash.mem == old(bus.flash.mem)
    {
      hide PushByte, Deselect, DevBus.Connected;
      ghost var f := bus.flash;
      assert PushBytes(f, []) == f;
      Send(F_WRDI, f, []);
      assert [] + [F_WRDI as byte] == [F_WRDI];
      ghost var n, m := bus.WriteConfig(F_END);
      DisableLetGo(f, n, m);
    }
  }

  /** The byteswap loop. */
  method SwapBytes(words: seq<word>, ghost there: seq<byte>) returns (bytes: seq<byte>)
    requires |there| == 4 * |words|
    requires forall k :: 0 <= k < |words| ==> words[k] == BuildWord(there[4 * k..])
    ensures bytes == there
  {
    hide BuildWord, HostByte;
    bytes := [];
    var k := 0;
    while k < |words|
      invariant 0 <= k <= |words| && bytes == there[..4 * k]
    {
      var w := words[k];
      bytes := bytes + [HostByte(w, 0), HostByte(w, 1), HostByte(w, 2), HostByte(w, 3)];
      ghost var rest := there[4 * k..];
      HostByteOfBuild(rest, 0);
      HostByteOfBuild(rest, 1);
      HostByteOfBuild(rest, 2);
      HostByteOfBuild(rest, 3);
      k := k + 1;
    }
  }

  /** The comparison loop of one sector.  `newv` is zero, which is no flash address, while
      nothing differs. */
  method Scan(lo: nat, there: seq<byte>, want: seq<byte>) returns (needErase: bool, newv: nat)
    requires lo > 0 && Aligned4(lo) && |there| == |want|
    ensures !needErase <==> AllKept(there, want)
    ensures newv == 0 ==> !needErase && there == want
    ensures newv != 0 ==> lo <= newv < lo + |want| && Aligned4(newv)
    ensures !needErase && newv != 0 ==> there[..newv - lo] == want[..newv - lo]
  {
    hide And, Aligned4;
    needErase, newv := false, 0;
    var i := 0;
    while i < |want|
      invariant 0 <= i <= |want| && !needErase
      invariant forall j :: 0 <= j < i ==> And(there[j], want[j]) == want[j]
      invariant newv == 0 ==> there[..i] == want[..i]
      invariant newv != 0 ==> lo <= newv < lo + i && Aligned4(newv) && there[..newv - lo] == want[..newv - lo]
    {
      AlignDown(lo, i);
      if And(there[i], want[i]) != want[i] {
        needErase, newv := true, i - i % 4 + lo;
        return;
      } else if there[i] != want[i] && newv == 0 {
        newv := i - i % 4 + lo;
        PrefixEqual(there, want, i, newv - lo);
      }
      i := i + 1;
    }
    if newv == 0 {
      assert there[..i] == there && want[..i] == want;
    }
  }

  lemma AlignDown(lo: nat, i: nat)
    requires Aligned4(lo)
    ensures 0 <= i - i % 4 <= i && Aligned4(i - i % 4 + lo)
  {
  }

  lemma PrefixEqual(x: seq<byte>, y: seq<byte>, n: nat, m: nat)
    requires m <= n <= |x| == |y| && x[..n] == y[..n]
    ensures x[..m] == y[..m]
  {
    assert x[..m] == x[..n][..m] && y[..m] == y[..n][..m];
  }

  method AllOnes(page: seq<word>) returns (ok: bool)
    ensures ok <==> forall j :: 0 <= j < |page| ==> page[j] == Ones(32)
  {
    var j := 0;
    while j < |page|
      invariant 0 <= j <= |page|
      invariant forall k :: 0 <= k < j ==> page[k] == Ones(32)
    {
      if page[j] != Ones(32) {
        return false;
      }
      j := j + 1;
    }
    ok := true;
  }

  lemma FourMore(x: seq<byte>, y: seq<byte>, i: nat)
    requires |x| == |y| && 4 * i + 4 <= |x| && x[..4 * i] == y[..4 * i]
    ensures x[4 * i..][..4] == y[4 * i..][..4] <==> x[..4 * i + 4] == y[..4 * i + 4]
  {
    var n := 4 * i;
    assert x[..n + 4] == x[..n] + x[n..][..4];
    assert y[..n + 4] == y[..n] + y[n..][..4];
    if x[..n + 4] == y[..n + 4] {
      assert x[n..][..4] == x[..n + 4][n..];
      assert y[n..][..4] == y[..n + 4][n..];
    }
  }

  /** The comparison loop of the read-back. */
  method CompareWords(buf: seq<word>, words: seq<word>, ghost there: seq<byte>, ghost data: seq<byte>)
    returns (ok: bool)
    requires |there| == |data| == 4 * |words| && |buf| == |words|
    requires forall k :: 0 <= k < |words| ==> words[k] == BuildWord(data[4 * k..])
    requires forall k :: 0 <= k < |buf| ==> buf[k] == BuildWord(there[4 * k..])
    ensures ok <==> there == data
  {
    hide BuildWord;
    var i := 0;
    while i < |words|
      invariant 0 <= i <= |words|
      invariant there[..4 * i] == data[..4 * i]
    {
      WordsEqualIff(there[4 * i..], data[4 * i..]);
      FourMore(there, data, i);
      if buf[i] != words[i] {
        return false;
      }
      i := i + 1;
    }
    assert there[..4 * i] == there && data[..4 * i] == data;
    ok := true;
  }
}
