/** What rtl/wbscope.v and rtl/wbscopc.v share: a circular memory written at `waddr`, and the
    pipelined logic that reads it back oldest word first. */
module ScopeMemory {

  import opened Ring

  // ---- Writing ------------------------------------------------------------------------------

  /** Memory after the words of `log` have been written to it from address zero on. */
  ghost predicate Holds<T>(depth: nat, mem: seq<T>, waddr: nat, primed: bool, log: seq<T>)
  {
    && |mem| == depth && waddr < depth
    && primed == (|log| >= depth)
    && (!primed ==> waddr == |log|)
    && forall k :: 0 <= k < depth && |log| >= depth - k ==> mem[Place(depth, waddr, k)] == log[|log| - depth + k]
  }

  lemma HoldsNothing<T>(depth: nat, mem: seq<T>)
    requires |mem| == depth > 0
    ensures Holds(depth, mem, 0, false, [])
  {
  }

  /** One more word. */
  lemma HoldsOneMore<T>(depth: nat, mem: seq<T>, waddr: nat, primed: bool, log: seq<T>, v: T)
    requires Holds(depth, mem, waddr, primed, log)
    ensures Holds(depth, mem[waddr := v], Wrap(depth, waddr + 1), primed || waddr + 1 == depth, log + [v])
  {
    var mem', w, log' := mem[waddr := v], Wrap(depth, waddr + 1), log + [v];
    forall k | 0 <= k < depth && |log'| >= depth - k
      ensures mem'[Place(depth, w, k)] == log'[|log'| - depth + k]
    {
      if k < depth - 1 {
        assert Place(depth, w, k) == Place(depth, waddr, k + 1) != waddr;
      } else {
        assert Place(depth, w, k) == waddr;
      }
    }
  }

  /** The words of memory, oldest first. */
  function Oldest<T>(mem: seq<T>, waddr: nat): (s: seq<T>)
    requires waddr < |mem|
    ensures |s| == |mem|
  {
    mem[waddr..] + mem[..waddr]
  }

  lemma OldestAt<T>(mem: seq<T>, waddr: nat, k: nat)
    requires waddr < |mem| && k < |mem|
    ensures Oldest(mem, waddr)[k] == mem[Wrap(|mem|, waddr + k)]
  {
  }

  /** A full memory holds the last words written. */
  lemma FullMemory<T>(depth: nat, mem: seq<T>, waddr: nat, log: seq<T>)
    requires Holds(depth, mem, waddr, true, log)
    ensures Oldest(mem, waddr) == log[|log| - depth..]
  {
    forall k | 0 <= k < depth
      ensures Oldest(mem, waddr)[k] == log[|log| - depth..][k]
    {
      assert Oldest(mem, waddr)[k] == mem[Place(depth, waddr, k)];
    }
  }

  // ---- Reading -------------------------------------------------------------------------------

  /** What the bus data register last took: the control word, the live input, or memory. */
  datatype Out<T> = Control | Live(value: T) | Memory(value: T)

  /** raddr, this_addr, nxt_mem and the bus data register. */
  datatype Reader<T> = Reader(raddr: nat, thisAddr: nat, nxt: T, out: Out<T>)

  datatype Select = SelectControl | SelectLive | SelectMemory

  /** `clear` resets the address, `read` is a read strobe at the data register. */
  function NextReader<T>(depth: nat, rd: Reader<T>, mem: seq<T>, waddr: nat, live: T,
                         clear: bool, read: bool, stopped: bool, select: Select): Reader<T>
    requires |mem| == depth && waddr < depth && rd.raddr < depth && rd.thisAddr < depth
  {
    Reader(
      raddr := if clear then 0 else if read && stopped then Wrap(depth, rd.raddr + 1) else rd.raddr,
      thisAddr := Wrap(depth, if read then Wrap(depth, rd.raddr + waddr) + 1 else Wrap(depth, rd.raddr + waddr)),
      nxt := mem[rd.thisAddr],
      out := match select case SelectControl => Control case SelectLive => Live(live) case SelectMemory => Memory(rd.nxt))
  }

  /** Reads in progress: their data will be on the bus in two clocks, or is on it now. */
  datatype Reads<T> = Reads(got: seq<Out<T>>, one: bool, two: bool) {
    function Count(): nat {
      |got| + (if one then 1 else 0) + (if two then 1 else 0)
    }
  }

  function NextReads<T>(rd: Reader<T>, seen: Reads<T>, read: bool): Reads<T> {
    Reads(if seen.two then seen.got + [rd.out] else seen.got, read, seen.one)
  }

  /** The reads so far, answered and under way, walk memory from the oldest word on. */
  ghost predicate Walking<T>(depth: nat, rd: Reader<T>, mem: seq<T>, waddr: nat, seen: Reads<T>)
  {
    && |mem| == depth && waddr < depth && seen.Count() <= depth
    && rd.raddr == Wrap(depth, seen.Count()) && rd.thisAddr == Wrap(depth, waddr + rd.raddr)
    && (forall k :: 0 <= k < |seen.got| ==> seen.got[k] == Memory(Oldest(mem, waddr)[k]))
    && (seen.two ==> rd.out == Memory(Oldest(mem, waddr)[|seen.got|]))
    && (seen.one ==> rd.nxt == Oldest(mem, waddr)[seen.Count() - 1])
  }

  /** Stopped and left alone, the reader gives the words back in order, however the reads are
      spaced, provided memory is still selected on the clock after each of them. */
  lemma WalkingStep<T>(depth: nat, rd: Reader<T>, mem: seq<T>, waddr: nat, live: T, read: bool, select: Select,
                       seen: Reads<T>)
    requires Walking(depth, rd, mem, waddr, seen) && (seen.one ==> select == SelectMemory)
    requires read ==> seen.Count() < depth
    ensures Walking(depth, NextReader(depth, rd, mem, waddr, live, false, read, true, select), mem, waddr,
                    NextReads(rd, seen, read))
  {
    var rd' := NextReader(depth, rd, mem, waddr, live, false, read, true, select);
    var seen' := NextReads(rd, seen, read);
    assert seen'.Count() == seen.Count() + (if read then 1 else 0);
    if read {
      OldestAt(mem, waddr, seen.Count());
    }
    hide Oldest;
    assert rd'.thisAddr == Wrap(depth, waddr + rd'.raddr);
  }

  lemma WalkingStarts<T>(depth: nat, rd: Reader<T>, mem: seq<T>, waddr: nat)
    requires |mem| == depth && waddr < depth && rd.raddr == 0 && rd.thisAddr == waddr
    ensures Walking(depth, rd, mem, waddr, Reads([], false, false))
  {
  }
}
