/** The look-ahead FIFO of rtl/ufifo.v, from its first reset on. */
module Fifo {
  import opened Ring

  datatype Input<T> = Input(rst: bool, wr: bool, data: T, rd: bool)

  /** osrc: where the output comes from. */
  datatype Source = Written | Here | Following

  datatype Regs<T> = Regs(
    mem: seq<T>, first: nat, last: nat, next: nat, overflow: bool, underflow: bool, ovfl: bool,
    here: T, following: T, data: T, source: Source, emptyN: bool, fill: nat)
  {
    /** 2^LGFLEN words, LGFLEN at least two. */
    predicate Sized(n: nat) {
      4 <= n == |mem| && first < n && last < n && next < n && fill < n
    }

    /** o_data */
    function Out(): T {
      match source case Written => data case Here => here case Following => following
    }
  }

  function Plus(n: nat, a: nat, k: nat): nat
    requires a < n && k <= 2 <= n
  {
    Wrap(n, a + k)
  }

  function NextOverflow<T>(n: nat, r: Regs<T>, i: Input<T>): bool
    requires r.Sized(n)
  {
    if i.rst then false
    else if i.rd then r.overflow && i.wr
    else if i.wr then r.overflow || Plus(n, r.first, 2) == r.last
    else r.overflow || Plus(n, r.first, 1) == r.last
  }

  function NextUnderflow<T>(r: Regs<T>, i: Input<T>): bool {
    if i.rst then true
    else if i.wr then r.underflow && i.rd
    else if i.rd then r.underflow || r.next == r.first
    else r.last == r.first
  }

  function NextEmptyN<T>(r: Regs<T>, i: Input<T>): bool {
    if i.rst then false
    else if i.wr == i.rd then r.first != r.last
    else if i.wr then true
    else if !r.underflow then r.first != r.next
    else r.emptyN
  }

  /** r_fill: for a receiver the number of items, for a transmitter the room left. */
  function NextFill<T>(n: nat, rx: bool, r: Regs<T>, i: Input<T>): nat
    requires r.Sized(n)
  {
    if rx then
      if i.rst then 0
      else if i.wr && !r.overflow && !(i.rd && !r.underflow) then Plus(n, Minus(n, r.first, r.last), 1)
      else if !(i.wr && !r.overflow) && i.rd && !r.underflow then Minus(n, r.first, r.next)
      else Minus(n, r.first, r.last)
    else
      if i.rst then n - 1
      else if i.rd && !i.wr then Minus(n, r.last, r.first)
      else if i.wr && !i.rd then Minus(n, r.last, Plus(n, r.first, 2))
      else Minus(n, r.last, Plus(n, r.first, 1))
  }

  function NextSource<T>(r: Regs<T>, i: Input<T>): Source {
    if r.underflow then Written
    else if i.rd && r.first == r.next then Written
    else if i.rd then Following
    else Here
  }

  function Next<T>(n: nat, rx: bool, r: Regs<T>, i: Input<T>): (r': Regs<T>)
    requires r.Sized(n)
    ensures r'.Sized(n)
  {
    var read := i.rd && (i.wr || !r.underflow);
    Regs(
      mem := if i.wr then r.mem[r.first := i.data] else r.mem,
      first := if i.rst then 0 else if i.wr && (i.rd || !r.overflow) then Plus(n, r.first, 1) else r.first,
      last := if i.rst then 0 else if read then r.next else r.last,
      next := if i.rst then 1 else if read then Plus(n, r.last, 2) else r.next,
      overflow := NextOverflow(n, r, i),
      underflow := NextUnderflow(r, i),
      ovfl := !i.rst && (r.ovfl || (i.wr && !i.rd && r.overflow)),
      here := r.mem[r.last], following := r.mem[r.next], data := i.data,
      source := NextSource(r, i),
      emptyN := NextEmptyN(r, i),
      fill := NextFill(n, rx, r, i))
  }

  // ---- The queue it refines -------------------------------------------------------------------

  /** Since the last reset: the items waiting, whether a write was dropped, the items accepted,
      and the items given to readers who looked first. */
  datatype Queue<T> = Queue(items: seq<T>, dropped: bool, taken: seq<T>, given: seq<T>)

  function NextQueue<T>(room: nat, q: Queue<T>, i: Input<T>): Queue<T> {
    var grown := q.items + [i.data];
    if i.rst then Queue([], false, [], [])
    else if i.wr && i.rd then
      Queue(grown[1..], q.dropped, q.taken + [i.data], q.given + q.items[..if |q.items| > 0 then 1 else 0])
    else if i.wr then
      if |q.items| < room then q.(items := grown, taken := q.taken + [i.data]) else q.(dropped := true)
    else if i.rd && |q.items| > 0 then q.(items := q.items[1..], given := q.given + [q.items[0]])
    else q
  }

  /** The registers stand for the queue: every flag is exact, and the output is the oldest item. */
  ghost predicate Represents<T>(n: nat, r: Regs<T>, q: Queue<T>)
  {
    && r.Sized(n) && r.next == Plus(n, r.last, 1)
    && Stored(n, r.mem, r.first, r.last, q.items)
    && r.overflow == (|q.items| == n - 1) && r.underflow == (|q.items| == 0) && r.emptyN == (|q.items| > 0)
    && r.ovfl == q.dropped
    && (|q.items| > 0 ==> r.Out() == q.items[0])
  }

  ghost predicate Stored<T>(n: nat, mem: seq<T>, first: nat, last: nat, items: seq<T>)
  {
    && |mem| == n && first < n && last < n && |items| == Minus(n, first, last)
    && forall k :: 0 <= k < |items| ==> mem[Place(n, last, k)] == items[k]
  }

  /** A write goes to the one place no item occupies. */
  lemma StoredWrite<T>(n: nat, mem: seq<T>, first: nat, last: nat, items: seq<T>, v: T)
    requires Stored(n, mem, first, last, items)
    ensures Stored(n, mem[first := v], first, last, items)
  {
    forall k | 0 <= k < |items|
      ensures mem[first := v][Place(n, last, k)] == items[k]
    {
      PlaceMinus(n, last, k);
      assert Place(n, last, k) != first;
    }
  }

  lemma StoredPush<T>(n: nat, mem: seq<T>, first: nat, last: nat, items: seq<T>, v: T)
    requires Stored(n, mem, first, last, items) && |items| < n - 1
    ensures Stored(n, mem[first := v], Plus(n, first, 1), last, items + [v])
  {
    StoredWrite(n, mem, first, last, items, v);
    assert Place(n, last, |items|) == first;
  }

  lemma StoredPop<T>(n: nat, mem: seq<T>, first: nat, last: nat, items: seq<T>)
    requires Stored(n, mem, first, last, items) && |items| > 0
    ensures Stored(n, mem, first, Plus(n, last, 1), items[1..])
    ensures mem[last] == items[0] && (|items| > 1 ==> mem[Plus(n, last, 1)] == items[1])
  {
    var next := Plus(n, last, 1);
    assert Place(n, last, 0) == last;
    if |items| > 1 {
      assert Place(n, last, 1) == next;
    }
    forall k | 0 <= k < |items| - 1
      ensures mem[Place(n, next, k)] == items[1..][k]
    {
      assert Place(n, next, k) == Place(n, last, k + 1);
    }
  }

  /** Reading and writing at once, even when full. */
  lemma StoredBoth<T>(n: nat, mem: seq<T>, first: nat, last: nat, items: seq<T>, v: T)
    requires 2 <= n && Stored(n, mem, first, last, items)
    ensures Stored(n, mem[first := v], Plus(n, first, 1), Plus(n, last, 1), (items + [v])[1..])
  {
    var mem' := mem[first := v];
    StoredWrite(n, mem, first, last, items, v);
    if |items| == 0 {
      assert (items + [v])[1..] == [];
    } else {
      StoredPop(n, mem', first, last, items);
      StoredPush(n, mem', first, Plus(n, last, 1), items[1..], v);
      assert (items + [v])[1..] == items[1..] + [v];
      assert mem'[first := v] == mem';
    }
  }

  lemma MemoryStep<T>(n: nat, rx: bool, r: Regs<T>, q: Queue<T>, i: Input<T>)
    requires Represents(n, r, q)
    ensures var r', q' := Next(n, rx, r, i), NextQueue(n - 1, q, i);
      Stored(n, r'.mem, r'.first, r'.last, q'.items) && r'.next == Plus(n, r'.last, 1)
  {
    hide Stored, NextOverflow, NextUnderflow, NextEmptyN, NextFill, NextSource;
    if i.rst {
      Empty(n, Next(n, rx, r, i).mem);
    } else if i.wr && i.rd {
      StoredBoth(n, r.mem, r.first, r.last, q.items, i.data);
    } else if i.wr {
      if |q.items| < n - 1 {
        StoredPush(n, r.mem, r.first, r.last, q.items, i.data);
      } else {
        SizeIs(n, r, q);
        StoredWrite(n, r.mem, r.first, r.last, q.items, i.data);
      }
    } else if i.rd && |q.items| > 0 {
      StoredPop(n, r.mem, r.first, r.last, q.items);
    }
  }

  lemma SizeIs<T>(n: nat, r: Regs<T>, q: Queue<T>)
    requires Represents(n, r, q)
    ensures |q.items| == Minus(n, r.first, r.last) < n
  {
  }

  lemma Empty<T>(n: nat, mem: seq<T>)
    requires |mem| == n > 0
    ensures Stored(n, mem, 0, 0, [])
  {
  }

  lemma FlagsStep<T>(n: nat, rx: bool, r: Regs<T>, q: Queue<T>, i: Input<T>)
    requires Represents(n, r, q)
    ensures var r', q' := Next(n, rx, r, i), NextQueue(n - 1, q, i);
      && r'.overflow == (|q'.items| == n - 1) && r'.underflow == (|q'.items| == 0) && r'.emptyN == (|q'.items| > 0)
      && r'.ovfl == q'.dropped
  {
    hide Stored, NextFill, NextSource;
    SizeIs(n, r, q);
  }

  lemma OutputStep<T>(n: nat, rx: bool, r: Regs<T>, q: Queue<T>, i: Input<T>)
    requires Represents(n, r, q)
    ensures var r', q' := Next(n, rx, r, i), NextQueue(n - 1, q, i);
      |q'.items| > 0 ==> r'.Out() == q'.items[0]
  {
    hide Stored, NextFill, NextOverflow, NextUnderflow, NextEmptyN;
    SizeIs(n, r, q);
    if |q.items| > 0 {
      StoredPop(n, r.mem, r.first, r.last, q.items);
    }
  }

  /** Every clock, whatever its inputs, does what the queue does. */
  lemma RefinesStep<T>(n: nat, rx: bool, r: Regs<T>, q: Queue<T>, i: Input<T>)
    requires Represents(n, r, q)
    ensures Represents(n, Next(n, rx, r, i), NextQueue(n - 1, q, i))
  {
    hide Next, NextQueue, Stored;
    MemoryStep(n, rx, r, q, i);
    FlagsStep(n, rx, r, q, i);
    OutputStep(n, rx, r, q, i);
  }

  /** A reset brings any state to the empty queue. */
  lemma ResetRepresents<T>(n: nat, rx: bool, r: Regs<T>, q: Queue<T>, i: Input<T>)
    requires r.Sized(n) && i.rst
    ensures Represents(n, Next(n, rx, r, i), NextQueue(n - 1, q, i))
  {
  }

  // ---- The fill count ------------------------------------------------------------------------

  function Count(n: nat, rx: bool, size: nat): int {
    if rx then size else n - 1 - size
  }

  /** The count is exact after every clock but one that reads and writes at once a receiver's
      FIFO that is full or empty, or does only one of them to a transmitter's FIFO that is full,
      for a write, or empty, for a read. */
  lemma FillExact<T>(n: nat, rx: bool, r: Regs<T>, q: Queue<T>, i: Input<T>)
    requires Represents(n, r, q)
    ensures Next(n, rx, r, i).fill == Count(n, rx, |NextQueue(n - 1, q, i).items|) <==>
      (i.rst
       || if rx then !(i.wr && i.rd && (|q.items| == 0 || |q.items| == n - 1))
          else !(i.wr && !i.rd && |q.items| == n - 1) && !(i.rd && !i.wr && |q.items| == 0))
  {
    hide Stored, NextSource, NextOverflow, NextUnderflow, NextEmptyN;
    SizeIs(n, r, q);
  }

  // ---- Nothing lost, nothing twice --------------------------------------------------------------

  ghost predicate Conserved<T>(q: Queue<T>)
  {
    q.given + q.items == q.taken
  }

  /** What goes in comes out, in order, unless a read meets a write in an empty FIFO: the item
      written is then never given. */
  lemma ConservedStep<T>(room: nat, q: Queue<T>, i: Input<T>)
    requires Conserved(q)
    ensures Conserved(NextQueue(room, q, i)) <==> i.rst || !(i.wr && i.rd && |q.items| == 0)
  {
    if i.rst {
    } else if i.wr && i.rd && |q.items| > 0 {
      assert q.given + [q.items[0]] + (q.items + [i.data])[1..] == q.given + q.items + [i.data];
    } else if i.wr && i.rd {
      assert |NextQueue(room, q, i).taken| == |q.taken| + 1;
    } else if i.wr {
      assert q.given + (q.items + [i.data]) == q.given + q.items + [i.data];
    } else if i.rd && |q.items| > 0 {
      assert q.given + [q.items[0]] + q.items[1..] == q.given + q.items;
    }
  }

  datatype System<T> = System(regs: Regs<T>, queue: Queue<T>)

  function Run<T>(n: nat, rx: bool, s: System<T>, inputs: seq<Input<T>>): (t: System<T>)
    requires s.regs.Sized(n)
    ensures t.regs.Sized(n)
  {
    if |inputs| == 0 then s
    else
      var t, i := Run(n, rx, s, inputs[..|inputs| - 1]), inputs[|inputs| - 1];
      System(Next(n, rx, t.regs, i), NextQueue(n - 1, t.queue, i))
  }

  /** Readers look at o_empty_n before they read. */
  ghost predicate Polite<T>(n: nat, rx: bool, s: System<T>, inputs: seq<Input<T>>)
    requires s.regs.Sized(n)
  {
    forall k :: 0 <= k < |inputs| && inputs[k].rd ==> Run(n, rx, s, inputs[..k]).regs.emptyN
  }

  /** From a reset on, in every run. */
  lemma {:induction false} RunRefines<T>(n: nat, rx: bool, s: System<T>, inputs: seq<Input<T>>)
    requires s.regs.Sized(n) && |inputs| > 0 && inputs[0].rst
    ensures var t := Run(n, rx, s, inputs); Represents(n, t.regs, t.queue)
  {
    hide Represents, Next, NextQueue;
    var before, i := inputs[..|inputs| - 1], inputs[|inputs| - 1];
    var t := Run(n, rx, s, before);
    if |before| == 0 {
      ResetRepresents(n, rx, t.regs, t.queue, i);
    } else {
      RunRefines(n, rx, s, before);
      RefinesStep(n, rx, t.regs, t.queue, i);
    }
  }

  /** The items given to polite readers and those still waiting are exactly those accepted, in
      order. */
  lemma {:induction false} RunConserves<T>(n: nat, rx: bool, s: System<T>, inputs: seq<Input<T>>)
    requires s.regs.Sized(n) && |inputs| > 0 && inputs[0].rst && Polite(n, rx, s, inputs)
    ensures Conserved(Run(n, rx, s, inputs).queue)
  {
    hide Next, NextQueue, Stored, Conserved;
    var before, i := inputs[..|inputs| - 1], inputs[|inputs| - 1];
    var t := Run(n, rx, s, before);
    if |before| == 0 {
      Fresh(n - 1, t.queue, i);
    } else {
      PoliteBefore(n, rx, s, inputs);
      RunConserves(n, rx, s, before);
      RunRefines(n, rx, s, before);
      ConservedStep(n - 1, t.queue, i);
    }
  }

  lemma Fresh<T>(room: nat, q: Queue<T>, i: Input<T>)
    requires i.rst
    ensures Conserved(NextQueue(room, q, i))
  {
  }

  lemma PoliteBefore<T>(n: nat, rx: bool, s: System<T>, inputs: seq<Input<T>>)
    requires s.regs.Sized(n) && |inputs| > 0 && Polite(n, rx, s, inputs)
    ensures var before := inputs[..|inputs| - 1];
      Polite(n, rx, s, before) && (inputs[|inputs| - 1].rd ==> Run(n, rx, s, before).regs.emptyN)
  {
    var before := inputs[..|inputs| - 1];
    forall k | 0 <= k < |before| && before[k].rd
      ensures Run(n, rx, s, before[..k]).regs.emptyN
    {
      assert before[..k] == inputs[..k];
    }
  }

  // ---- The registers ----------------------------------------------------------------------------

  datatype Pointers = Pointers(first: nat, last: nat, next: nat)
  datatype Flags = Flags(overflow: bool, underflow: bool, ovfl: bool, emptyN: bool)
  datatype Output<T> = Output(here: T, following: T, data: T, source: Source)

  class UFifo<T> {
    const n: nat
    const rx: bool
    const mem: array<T>
    var at: Pointers
    var flags: Flags
    var out: Output<T>
    var fill: nat

    function Registers(): Regs<T>
      reads this, mem
    {
      Regs(mem[..], at.first, at.last, at.next, flags.overflow, flags.underflow, flags.ovfl,
           out.here, out.following, out.data, out.source, flags.emptyN, fill)
    }

    ghost predicate Valid()
      reads this, mem
    {
      Registers().Sized(n)
    }

    /** r_next powers up to anything. */
    constructor (n: nat, rx: bool, blank: T, next: nat)
      requires 4 <= n && next < n
      ensures this.n == n && this.rx == rx && fresh(mem) && Valid()
    {
      this.n, this.rx := n, rx;
      mem := new T[n](_ => blank);
      at, flags := Pointers(0, 0, next), Flags(false, true, false, false);
      out, fill := Output(blank, blank, blank, Written), 0;
    }

    method FlagsBlock(i: Input<T>) returns (f: Flags)
      requires Valid()
      ensures var r := Next(n, rx, Registers(), i); f == Flags(r.overflow, r.underflow, r.ovfl, r.emptyN)
    {
      if i.rst {
        return Flags(false, true, false, false);
      }
      var overflow', underflow', ovfl', emptyN' := flags.overflow, at.last == at.first, flags.ovfl, flags.emptyN;
      if i.rd {
        overflow' := flags.overflow && i.wr;
      } else if i.wr {
        overflow' := flags.overflow || Plus(n, at.first, 2) == at.last;
        ovfl' := flags.ovfl || flags.overflow;
      } else if Plus(n, at.first, 1) == at.last {
        overflow' := true;
      }
      if i.wr {
        underflow' := flags.underflow && i.rd;
      } else if i.rd {
        underflow' := flags.underflow || at.next == at.first;
      }
      if i.wr == i.rd {
        emptyN' := at.first != at.last;
      } else if i.wr {
        emptyN' := true;
      } else if !flags.underflow {
        emptyN' := at.first != at.next;
      }
      f := Flags(overflow', underflow', ovfl', emptyN');
    }

    method PointersBlock(i: Input<T>) returns (p: Pointers)
      requires Valid()
      ensures var r := Next(n, rx, Registers(), i); p == Pointers(r.first, r.last, r.next)
    {
      if i.rst {
        return Pointers(0, 0, 1);
      }
      p := at;
      if i.wr && (i.rd || !flags.overflow) {
        p := p.(first := Plus(n, at.first, 1));
      }
      if i.rd && (i.wr || !flags.underflow) {
        p := p.(last := at.next, next := Plus(n, at.last, 2));
      }
    }

    method OutputBlock(i: Input<T>) returns (o: Output<T>)
      requires Valid()
      ensures var r := Next(n, rx, Registers(), i); o == Output(r.here, r.following, r.data, r.source)
    {
      o := Output(mem[at.last], mem[at.next], i.data, Here);
      if flags.underflow || (i.rd && at.first == at.next) {
        o := o.(source := Written);
      } else if i.rd {
        o := o.(source := Following);
      }
    }

    method FillBlock(i: Input<T>) returns (f: nat)
      requires Valid()
      ensures f == Next(n, rx, Registers(), i).fill
    {
      if rx {
        var wr, rd := i.wr && !flags.overflow, i.rd && !flags.underflow;
        f := Minus(n, at.first, at.last);
        if i.rst {
          f := 0;
        } else if rd && !wr {
          f := Minus(n, at.first, at.next);
        } else if wr && !rd {
          f := Plus(n, Minus(n, at.first, at.last), 1);
        }
      } else {
        f := Minus(n, at.last, Plus(n, at.first, 1));
        if i.rst {
          f := n - 1;
        } else if i.rd && !i.wr {
          f := Minus(n, at.last, at.first);
        } else if i.wr && !i.rd {
          f := Minus(n, at.last, Plus(n, at.first, 2));
        }
      }
    }

    method Clock(i: Input<T>)
      requires Valid()
      modifies this, mem
      ensures Valid() && Registers() == Next(n, rx, old(Registers()), i)
    {
      hide Next;
      ghost var r := Next(n, rx, Registers(), i);
      MemIs(n, rx, Registers(), i);
      var f := FlagsBlock(i);
      var p := PointersBlock(i);
      var o := OutputBlock(i);
      var l := FillBlock(i);
      if i.wr {
        mem[at.first] := i.data;
      }
      flags, at, out, fill := f, p, o, l;
      assert Registers() == r;
    }
  }

  lemma MemIs<T>(n: nat, rx: bool, r: Regs<T>, i: Input<T>)
    requires r.Sized(n)
    ensures Next(n, rx, r, i).mem == if i.wr then r.mem[r.first := i.data] else r.mem
  {
  }
}
