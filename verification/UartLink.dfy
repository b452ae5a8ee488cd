/** A transmitter wired to a receiver: rtl/txuartlite.v driving rtl/rxuartlite.v. */
module UartLink {
  import opened Bits
  import opened UartLine
  import Tx = TxUart
  import Rx = RxUart

  datatype Event = Event(time: nat, data: octet)

  /** Both ends, the time in clocks, and what each end has taken or given so far. */
  datatype Link = Link(tx: Tx.Regs, rx: Rx.Regs, clock: nat, sent: seq<Event>, received: seq<Event>)

  datatype Params = Params(tx: Tx.Params, rx: Rx.Params) {
    predicate Valid() {
      tx.Valid() && rx.Valid() && Rx.Compatible(rx, tx.period)
    }

    /** From the clock that accepts a byte to the clock that delivers it. */
    function Delay(): nat {
      rx.Latency() + 4
    }
  }

  function Step(p: Params, s: Link, i: Tx.Input): Link
    requires p.Valid()
  {
    Link(Tx.Next(p.tx, s.tx, i), Rx.Next(p.rx, s.rx, s.tx.line), s.clock + 1,
         if Tx.Accepts(s.tx, i) then s.sent + [Event(s.clock, i.data)] else s.sent,
         if s.rx.wr then s.received + [Event(s.clock, s.rx.data)] else s.received)
  }

  predicate PowerOn(p: Params, s: Link)
    requires p.Valid()
  {
    s.tx == Tx.POWER_ON && Rx.PowerOn(p.rx, s.rx) && s.clock == 0 && s.sent == [] && s.received == []
  }

  function Run(p: Params, s: Link, inputs: seq<Tx.Input>): Link
    requires p.Valid()
  {
    if |inputs| == 0 then s else Step(p, Run(p, s, inputs[..|inputs| - 1]), inputs[|inputs| - 1])
  }

  /** Bytes are accepted at least `gap` clocks apart. */
  ghost predicate Spaced(gap: nat, sent: seq<Event>)
  {
    forall i, j :: 0 <= i < j < |sent| ==> sent[i].time + gap <= sent[j].time
  }

  // ---- The frame on the line at any time ----------------------------------------------------

  function Latest(sent: seq<Event>, t: int): Frame {
    if |sent| == 0 then None
    else
      var last := sent[|sent| - 1];
      if last.time < t then Frame(last.data, t - 1 - last.time) else Latest(sent[..|sent| - 1], t)
  }

  lemma {:induction false} LatestFollows(gap: nat, sent: seq<Event>, t: int)
    requires Spaced(gap, sent)
    ensures Follows(gap, Latest(sent, t), Latest(sent, t + 1))
  {
    if |sent| == 0 {
    } else {
      var front, last := sent[..|sent| - 1], sent[|sent| - 1];
      if last.time > t {
        LatestFollows(gap, front, t);
      } else if last.time == t && |front| > 0 {
        assert front[|front| - 1].time + gap <= last.time;
        LatestOr(gap, front, t);
      }
    }
  }

  lemma {:induction false} LatestOr(gap: nat, sent: seq<Event>, t: int)
    requires forall i :: 0 <= i < |sent| ==> sent[i].time + gap <= t
    ensures var f := Latest(sent, t); f.Frame? ==> f.age + 1 >= gap
  {
    if |sent| > 0 && sent[|sent| - 1].time >= t {
      LatestOr(gap, sent[..|sent| - 1], t);
    }
  }

  lemma LatestBefore(sent: seq<Event>, e: Event, t: int)
    requires t <= e.time
    ensures Latest(sent + [e], t) == Latest(sent, t)
  {
    assert (sent + [e])[..|sent|] == sent;
  }

  lemma {:induction false} LatestIs(sent: seq<Event>, t: int, k: nat)
    requires k < |sent| && sent[k].time < t && (forall j :: k < j < |sent| ==> sent[j].time >= t)
    ensures Latest(sent, t) == Frame(sent[k].data, t - 1 - sent[k].time)
  {
    if k < |sent| - 1 {
      LatestIs(sent[..|sent| - 1], t, k);
    }
  }

  lemma {:induction false} LatestComesFrom(sent: seq<Event>, t: int) returns (k: nat)
    requires Latest(sent, t).Frame?
    ensures k < |sent| && sent[k].time < t && Latest(sent, t) == Frame(sent[k].data, t - 1 - sent[k].time)
  {
    if sent[|sent| - 1].time < t {
      k := |sent| - 1;
    } else {
      k := LatestComesFrom(sent[..|sent| - 1], t);
    }
  }

  // ---- What every clock keeps ---------------------------------------------------------------

  /** The receiver's synchronizer holds the line of the last three clocks. */
  predicate Synchronized(period: nat, r: Rx.Regs, sent: seq<Event>, clock: nat)
    requires 0 < period
  {
    && r.q == Line(period, Latest(sent, clock - 1))
    && r.qq == Line(period, Latest(sent, clock - 2))
    && r.ck == Line(period, Latest(sent, clock - 3))
  }

  /** Exactly the bytes accepted more than `delay` clocks ago have been delivered, in order, each
      after exactly that delay. */
  ghost predicate Delivered(delay: nat, s: Link)
  {
    && |s.received| <= |s.sent|
    && (forall k :: 0 <= k < |s.sent| ==> (k < |s.received| <==> s.sent[k].time + delay < s.clock))
    && (forall k :: 0 <= k < |s.received| ==> s.received[k] == Event(s.sent[k].time + delay, s.sent[k].data))
  }

  ghost predicate Sends(p: Params, s: Link)
    requires p.Valid()
  {
    && Spaced(10 * p.tx.period + 1, s.sent)
    && (forall k :: 0 <= k < |s.sent| ==> s.sent[k].time < s.clock)
    && Tx.Transmits(p.tx, s.tx, Latest(s.sent, s.clock))
  }

  ghost predicate Receives(p: Params, s: Link)
    requires p.Valid()
  {
    && Synchronized(p.tx.period, s.rx, s.sent, s.clock)
    && Rx.Receives(p.rx, s.rx, Latest(s.sent, s.clock - 3))
  }

  lemma SendsStep(p: Params, s: Link, i: Tx.Input)
    requires p.Valid() && Sends(p, s)
    ensures Sends(p, Step(p, s, i))
  {
    hide Tx.Next, Tx.Transmits, Rx.Next, Tx.Accepts;
    var f := Latest(s.sent, s.clock);
    Tx.TransmitsStep(p.tx, s.tx, f, i);
    if Tx.Accepts(s.tx, i) {
      Accepted(p, s, i);
    }
  }

  /** A byte is accepted no sooner than ten bit periods after the one before. */
  lemma Accepted(p: Params, s: Link, i: Tx.Input)
    requires p.Valid() && Sends(p, s) && Tx.Accepts(s.tx, i)
    ensures Spaced(10 * p.tx.period + 1, s.sent + [Event(s.clock, i.data)])
  {
    hide Tx.Next, Tx.Transmits;
    Tx.TransmitsStep(p.tx, s.tx, Latest(s.sent, s.clock), i);
    var sent := s.sent + [Event(s.clock, i.data)];
    forall i, j | 0 <= i < j < |sent|
      ensures sent[i].time + (10 * p.tx.period + 1) <= sent[j].time
    {
      if j == |s.sent| && i < j - 1 {
        assert s.sent[i].time < s.sent[j - 1].time;
      }
    }
  }

  lemma SynchronizedStep(p: Params, s: Link, i: Tx.Input)
    requires p.Valid() && Sends(p, s) && Receives(p, s)
    ensures var s' := Step(p, s, i); Synchronized(p.tx.period, s'.rx, s'.sent, s'.clock)
  {
    hide Tx.Next, Tx.Transmits, Rx.Receives, Line, Tx.Accepts;
    Tx.LineIs(p.tx, s.tx, Latest(s.sent, s.clock));
    var e := Event(s.clock, i.data);
    LatestBefore(s.sent, e, s.clock);
    LatestBefore(s.sent, e, s.clock - 1);
    LatestBefore(s.sent, e, s.clock - 2);
  }

  lemma ReceivesStep(p: Params, s: Link, i: Tx.Input)
    requires p.Valid() && Sends(p, s) && Receives(p, s) && Spaced(p.rx.Latency() + 1, s.sent)
    ensures Receives(p, Step(p, s, i))
  {
    hide Tx.Next, Tx.Transmits, Rx.Next, Rx.Receives, Line, Tx.Accepts, Rx.Compatible;
    SynchronizedStep(p, s, i);
    LatestFollows(p.rx.Latency() + 1, s.sent, s.clock - 3);
    Rx.ReceivesStep(p.rx, p.tx.period, s.rx, Latest(s.sent, s.clock - 3), Latest(s.sent, s.clock - 2), s.tx.line);
    LatestBefore(s.sent, Event(s.clock, i.data), s.clock - 2);
  }

  lemma DeliversWhen(p: Rx.Params, r: Rx.Regs, f: Frame)
    requires p.Valid() && Rx.Receives(p, r, f)
    ensures r.wr <==> f.Frame? && f.age == p.Latency()
    ensures r.wr ==> r.data == f.data
  {
  }

  /** A byte is given out exactly when the oldest byte still due is due. */
  lemma DueNow(p: Params, s: Link)
    requires p.Valid() && Receives(p, s) && Spaced(p.rx.Latency() + 1, s.sent) && Delivered(p.Delay(), s)
    ensures var m := |s.received|;
      && (s.rx.wr <==> m < |s.sent| && s.sent[m].time + p.Delay() == s.clock)
      && (s.rx.wr ==> s.rx.data == s.sent[m].data)
  {
    hide Rx.Receives;
    var m, t := |s.received|, s.clock - 3;
    DeliversWhen(p.rx, s.rx, Latest(s.sent, t));
    if m < |s.sent| && s.sent[m].time + p.Delay() == s.clock {
      LatestIs(s.sent, t, m);
    }
    if s.rx.wr {
      var k := LatestComesFrom(s.sent, t);
      assert s.sent[k].time + p.Delay() == s.clock;
      assert m <= k;
    }
  }

  lemma DeliveredStep(p: Params, s: Link, i: Tx.Input)
    requires p.Valid() && Receives(p, s) && Spaced(p.rx.Latency() + 1, s.sent) && Delivered(p.Delay(), s)
    ensures Delivered(p.Delay(), Step(p, s, i))
  {
    hide Receives, Tx.Next, Rx.Next, Tx.Accepts;
    DueNow(p, s);
  }

  // ---- Whole runs ---------------------------------------------------------------------------

  ghost predicate Invariant(p: Params, s: Link)
    requires p.Valid()
  {
    Sends(p, s) && Receives(p, s) && Delivered(p.Delay(), s)
  }

  lemma SentGrows(gap: nat, p: Params, s: Link, i: Tx.Input)
    requires p.Valid() && Spaced(gap, Step(p, s, i).sent)
    ensures Spaced(gap, s.sent)
  {
    assert s.sent <= Step(p, s, i).sent;
    assert forall k :: 0 <= k < |s.sent| ==> Step(p, s, i).sent[k] == s.sent[k];
  }

  lemma {:induction false} RunInvariant(p: Params, s: Link, inputs: seq<Tx.Input>)
    requires p.Valid() && PowerOn(p, s) && Spaced(p.rx.Latency() + 1, Run(p, s, inputs).sent)
    ensures Invariant(p, Run(p, s, inputs))
  {
    hide Step, Receives, Sends, Delivered, Rx.Compatible, Spaced;
    if |inputs| == 0 {
      Starts(p, s);
    } else {
      var before, i := inputs[..|inputs| - 1], inputs[|inputs| - 1];
      var t := Run(p, s, before);
      SentGrows(p.rx.Latency() + 1, p, t, i);
      RunInvariant(p, s, before);
      SendsStep(p, t, i);
      ReceivesStep(p, t, i);
      DeliveredStep(p, t, i);
    }
  }

  lemma Starts(p: Params, s: Link)
    requires p.Valid() && PowerOn(p, s)
    ensures Invariant(p, s)
  {
  }

  /** The sender keeps its bytes ten bit periods apart whatever the writes. */
  lemma {:induction false} RunSends(p: Params, s: Link, inputs: seq<Tx.Input>)
    requires p.Valid() && PowerOn(p, s)
    ensures Sends(p, Run(p, s, inputs))
  {
    hide Step, Sends, Rx.Compatible;
    if |inputs| == 0 {
      Starts(p, s);
    } else {
      RunSends(p, s, inputs[..|inputs| - 1]);
      SendsStep(p, Run(p, s, inputs[..|inputs| - 1]), inputs[|inputs| - 1]);
    }
  }

  predicate Held(inputs: seq<Tx.Input>) {
    forall k :: 0 <= k < |inputs| ==> inputs[k].wr
  }

  /** While a write is held and not accepted, the frame on the line grows older. */
  ghost predicate Waiting(p: Params, s: Link, t: Link, n: nat)
    requires p.Valid()
  {
    var f, g := Latest(s.sent, s.clock), Latest(t.sent, t.clock);
    && Sends(p, t) && t.sent == s.sent && g == (if f.Frame? then f.(age := f.age + n) else f)
    && (n > 0 && (g.Frame? ==> g.age >= 10 * p.tx.period) ==> !t.tx.busy)
  }

  lemma WaitingStep(p: Params, s: Link, t: Link, n: nat, i: Tx.Input)
    requires p.Valid() && Waiting(p, s, t, n) && i.wr && !Tx.Accepts(t.tx, i)
    ensures Waiting(p, s, Step(p, t, i), n + 1)
  {
    hide Tx.Next, Tx.Transmits, Rx.Next;
    SendsStep(p, t, i);
    LatestAges(p, t);
    var g := Latest(t.sent, t.clock);
    if g.Frame? ==> g.age + 1 >= 10 * p.tx.period {
      Tx.BecomesFree(p.tx, t.tx, g, i);
    }
  }

  lemma LatestAges(p: Params, t: Link)
    requires p.Valid() && Sends(p, t)
    ensures var g := Latest(t.sent, t.clock); Latest(t.sent, t.clock + 1) == if g.Frame? then g.(age := g.age + 1) else g
  {
  }

  lemma {:induction false} RunWaiting(p: Params, s: Link, inputs: seq<Tx.Input>)
    requires p.Valid() && Sends(p, s) && Held(inputs)
    ensures s.sent < Run(p, s, inputs).sent || Waiting(p, s, Run(p, s, inputs), |inputs|)
  {
    hide Tx.Next, Rx.Next, Tx.Accepts, Sends, Waiting;
    if |inputs| == 0 {
      WaitingStarts(p, s);
    } else {
      var before, i := inputs[..|inputs| - 1], inputs[|inputs| - 1];
      RunWaiting(p, s, before);
      var t := Run(p, s, before);
      if !(s.sent < t.sent) && !Tx.Accepts(t.tx, i) {
        WaitingStep(p, s, t, |before|, i);
      } else {
        WaitingSent(p, s, t, |before|);
      }
    }
  }

  lemma WaitingStarts(p: Params, s: Link)
    requires p.Valid() && Sends(p, s)
    ensures Waiting(p, s, s, 0)
  {
    hide Sends;
  }

  lemma WaitingSent(p: Params, s: Link, t: Link, n: nat)
    requires p.Valid() && (s.sent < t.sent || Waiting(p, s, t, n))
    ensures s.sent <= t.sent
  {
    hide Sends;
  }

  /** A write that is held is accepted within ten bit periods and a clock. */
  lemma HeldIsAccepted(p: Params, s: Link, inputs: seq<Tx.Input>)
    requires p.Valid() && Sends(p, s) && Held(inputs) && |inputs| == 10 * p.tx.period + 1
    ensures s.sent < Run(p, s, inputs).sent
  {
    hide Sends, Tx.Next, Rx.Next;
    var before, i := inputs[..|inputs| - 1], inputs[|inputs| - 1];
    RunWaiting(p, s, before);
    var t := Run(p, s, before);
    WaitingSent(p, s, t, |before|);
    assert i.wr;
  }

  /** With any timing of writes, the receiver delivers exactly the bytes the transmitter accepts,
      in order, each exactly Delay() clocks after it was accepted, if it is done with one frame
      before the next can begin. */
  lemma DeliversAll(p: Params, s: Link, inputs: seq<Tx.Input>)
    requires p.Valid() && PowerOn(p, s) && p.rx.Latency() <= 10 * p.tx.period
    ensures Delivered(p.Delay(), Run(p, s, inputs))
  {
    hide Run, Rx.Compatible, Tx.Transmits;
    RunSends(p, s, inputs);
    var t := Run(p, s, inputs);
    assert Spaced(p.rx.Latency() + 1, t.sent);
    RunInvariant(p, s, inputs);
  }

  /** In particular between equal clocks, whatever the baud rate. */
  lemma EqualClocksDeliver(p: Params, s: Link, inputs: seq<Tx.Input>)
    requires p.tx.Valid() && p.rx.Valid() && p.tx.period == p.rx.period
    ensures p.Valid() && (PowerOn(p, s) ==> Delivered(p.Delay(), Run(p, s, inputs)))
  {
    hide Run, Rx.PowerOn, Delivered;
    Rx.EqualClocks(p.rx);
    if PowerOn(p, s) {
      DeliversAll(p, s, inputs);
    }
  }

  /** A slow receiver still gets every single frame, and any frames far enough apart. */
  lemma DeliversSpaced(p: Params, s: Link, inputs: seq<Tx.Input>)
    requires p.Valid() && PowerOn(p, s) && Spaced(p.rx.Latency() + 1, Run(p, s, inputs).sent)
    ensures Delivered(p.Delay(), Run(p, s, inputs))
  {
    hide Run, Rx.Compatible;
    RunInvariant(p, s, inputs);
  }
}
