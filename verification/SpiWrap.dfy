/** A sequential read that runs over the top of the controller's address space, played out. */
module SpiWrap {
  import opened Bits
  import opened FlashDevice
  import opened FlashRead
  import opened SpiXpress
  import opened SpiSystem
  import opened SpiRuns
  import opened SpiBurst

  lemma Awakes(aw: nat, s: System, top: nat)
    requires Init(s) && s.flash.state.Idle? && !s.flash.Busy() && top < Pow2(aw) && aw <= 22
    ensures Legal(aw, s, Request(top))
    ensures Bursting(aw, Step(aw, s, Request(top)), NextFlash(s), top, top) && Step(aw, s, Request(top)).regs.delay == 65
  {
    InitInvariant(aw, s);
    Settles(s.flash, s.lclsck, s.regs.Mosi());
    Opens(aw, s, top);
  }

  /** From power-on, with legal requests, a read of address zero is answered with the word past
      the top of the address space. */
  lemma WrappedRead(aw: nat, s: System) returns (inputs: seq<Input>)
    requires Init(s) && aw < 22 && s.flash.state.Idle? && !s.flash.Busy()
    ensures LegalRun(aw, s, inputs)
    ensures var t := Run(aw, s, inputs);
      && t.regs.ack && |t.ledger.queue| > 0 && t.ledger.queue[0] == Fetch(0, Pow2(aw)) && Ready(t)
      && 4 * Pow2(aw) + 3 < |t.flash.mem| && t.regs.data == WordAt(t.flash.mem, Pow2(aw))
  {
    hide Init, SpiRuns.Invariant, Step, Legal, Run, LegalRun, WordAt, Ready, NextFlash;
    var top, base := Pow2(aw) - 1, NextFlash(s);
    Awakes(aw, s, top);
    var u1 := Step(aw, s, Request(top));
    RunOne(aw, s, Request(top));
    Nears(aw, u1, base, top, top);
    RunAppend(aw, s, [Request(top)], Idles(63));
    var u2 := Run(aw, u1, Idles(63));
    Continues(aw, u2, base, top, top);
    var u3, u4 := Step(aw, u2, Request(0)), Step(aw, Step(aw, u2, Request(0)), Request(0));
    var first := [Request(top)] + Idles(63);
    RunOne(aw, u2, Request(0));
    RunAppend(aw, s, first, [Request(0)]);
    RunOne(aw, u3, Request(0));
    RunAppend(aw, s, first + [Request(0)], [Request(0)]);
    Ends(aw, u4, base, 0, Pow2(aw));
    RunAppend(aw, s, first + [Request(0)] + [Request(0)], Idles(32));
    inputs := first + [Request(0)] + [Request(0)] + Idles(32);
    PastTheTop(aw, Run(aw, u4, Idles(32)));
  }

  lemma PastTheTop(aw: nat, t: System)
    requires SpiRuns.Invariant(aw, t) && Ready(t) && t.regs.ack && aw < 22
    requires |t.ledger.queue| > 0 && t.ledger.queue[0] == Fetch(0, Pow2(aw))
    ensures 4 * Pow2(aw) + 3 < |t.flash.mem| && t.regs.data == WordAt(t.flash.mem, Pow2(aw))
  {
    hide WordAt, OnWire, Commanding, Fetching, Fetched, Sending, Replied, Pending, Owed, Control;
    Pow2Monotonic(aw, 21);
    Small();
    FetchDelivers(aw, t);
  }

  lemma Small()
    ensures Pow2(21) == 0x20_0000
  {
    Pow2Constants();
  }
}
