/** The host's reading of a compressed recording, sw/host/scopecls.cpp. */
module ScopeDecoder {
  import opened MachineInts
  import opened RunLength
  import ScopeMemory
  import WbScopC

  /** A value change in the trace file. */
  datatype Event = Event(time: nat, value: nat)

  predicate Ordered(events: seq<Event>, end: nat) {
    |events| > 0 ==>
      var last := events[|events| - 1];
      last.time <= end && Ordered(events[..|events| - 1], last.time)
  }

  /** The samples a viewer shows for a trace: every value until the next one, the last until
      the end. */
  function Waveform(events: seq<Event>, end: nat): seq<nat>
    requires Ordered(events, end)
  {
    if |events| == 0 then []
    else
      var last := events[|events| - 1];
      Waveform(events[..|events| - 1], last.time) + Copies(last.value, end - last.time)
  }

  lemma Holds(events: seq<Event>, end: nat, more: nat)
    requires Ordered(events, end) && |events| > 0
    ensures Ordered(events, end + more)
    ensures Waveform(events, end + more) == Waveform(events, end) + Copies(events[|events| - 1].value, more)
  {
    var last := events[|events| - 1];
    var n := end - last.time;
    assert Copies(last.value, n + more) == Copies(last.value, n) + Copies(last.value, more);
  }

  lemma NewEvent(events: seq<Event>, end: nat, value: nat)
    requires Ordered(events, end)
    ensures var next := events + [Event(end, value)];
      Ordered(next, end + 1) && Waveform(next, end + 1) == Waveform(events, end) + [value]
  {
    var next := events + [Event(end, value)];
    assert next[..|next| - 1] == events;
    assert Copies(value, 1) == [value];
  }

  /** How many samples the words stand for, as the loop adds them up: the first word counts as
      one sample whatever it is. */
  function Length(words: seq<Word>): nat {
    if |words| == 0 then 0
    else
      var n := |words| - 1;
      Length(words[..n]) + 1 + (if words[n].Repeat? && n > 0 then words[n].extra else 0)
  }

  /** It overcounts by one exactly when the first word is a repeat. */
  lemma {:induction false} LengthIs(words: seq<Word>)
    requires Alternating(words) && |words| > 0
    ensures Length(words) == |Expand(words)| + (if words[0].Repeat? then 1 else 0)
    ensures words[|words| - 1].Sample? ==> |Expand(words)| > 0
  {
    var n := |words| - 1;
    var front := words[..n];
    if n == 0 {
      assert front == [];
    } else {
      AlternatingPart(words, 0, n);
      LengthIs(front);
      assert front[n - 1] == words[n - 1];
    }
  }

  /** getaddresslen(), in 32 bits. */
  method AddressLength(words: seq<Word>) returns (alen: nat)
    requires Alternating(words) && |words| > 0
    ensures alen == (|Expand(words)| + (if words[0].Repeat? then 1 else 0)) % 0x1_0000_0000
  {
    alen := |words| % 0x1_0000_0000;
    var i := 0;
    while i < |words|
      invariant 0 <= i <= |words|
      invariant alen == (|words| - i + Length(words[..i])) % 0x1_0000_0000
    {
      assert words[..i + 1][..i] == words[..i];
      if words[i].Repeat? && i != 0 {
        alen := (alen + words[i].extra) % 0x1_0000_0000;
      }
      i := i + 1;
    }
    assert words[..i] == words;
    LengthIs(words);
  }

  /** The comparison that sets the trigger mark, in 32 bits: it is met by the sample `addrv` just
      when that is twice the length less the holdoff and one, while the place computed for the
      trigger is the length less the holdoff and one. */
  predicate Marks(addrv: nat, alen: nat, holdoff: nat) {
    Int32(addrv - alen) == Int32(alen - holdoff - 1)
  }

  lemma MarksIff(addrv: nat, alen: nat, holdoff: nat)
    ensures Marks(addrv, alen, holdoff) <==> (addrv - (2 * alen - holdoff - 1)) % 0x1_0000_0000 == 0
  {
    var x, y := addrv - alen, alen - holdoff - 1;
    Int32Iff(x, y);
    assert x - y == addrv - (2 * alen - holdoff - 1);
  }

  lemma Int32Iff(x: int, y: int)
    ensures Int32(x) == Int32(y) <==> (x - y) % 0x1_0000_0000 == 0
  {
  }

  /** The place the decoder takes for the trigger's, and the start of its time, is one sample
      late, and two if the first word is a repeat. */
  lemma TriggerIsEarlier(words: seq<Word>, samples: seq<nat>, trigger: nat, holdoff: nat)
    requires Alternating(words) && WbScopC.EndsAt(Expand(words), samples, trigger + holdoff + 1)
    requires |words| > 0 && holdoff + 2 <= |Expand(words)|
    ensures var at := |Expand(words)| - holdoff - 2;
      && Expand(words)[at] == samples[trigger]
      && Length(words) - holdoff - 1 == at + (if words[0].Repeat? then 2 else 1)
  {
    LengthIs(words);
    hide Expand;
  }

  /** While that place is in the trace, no sample of it is marked. */
  lemma MarkIsMissed(addrv: nat, alen: nat, holdoff: nat)
    requires addrv < alen < 0x8000_0000 && holdoff < alen
    ensures !Marks(addrv, alen, holdoff)
  {
  }

  /** Any mark is on another sample: the place computed for the trigger comes before the trace. */
  lemma MarkIsFalse(addrv: nat, alen: nat, holdoff: nat)
    requires addrv < alen < 0x4000_0000 && holdoff < 0x4000_0000
    ensures Marks(addrv, alen, holdoff) <==> addrv == 2 * alen - holdoff - 1
    ensures Marks(addrv, alen, holdoff) ==> alen - holdoff - 1 < 0
  {
    MarksIff(addrv, alen, holdoff);
  }

  /** Word `k` is a sample that gets the mark. */
  predicate MarkedAt(words: seq<Word>, alen: nat, holdoff: nat, k: nat)
    requires k < |words|
  {
    words[k].Sample? && Marks(|Expand(words[..k])|, alen, holdoff)
  }

  /** Such a mark: ten samples, and a holdoff of twelve, mark the eighth of them. */
  lemma MarkAppears()
    ensures Marks(7, 10, 12)
    ensures forall words: seq<Word> :: |words| == 10 && (forall k :: 0 <= k < 10 ==> words[k].Sample?) ==>
      MarkedAt(words, 10, 12, 7)
  {
    forall words: seq<Word> | |words| == 10 && (forall k :: 0 <= k < 10 ==> words[k].Sample?)
      ensures MarkedAt(words, 10, 12, 7)
    {
      SamplesCount(words[..7]);
    }
  }

  lemma {:induction false} SamplesCount(words: seq<Word>)
    requires forall k :: 0 <= k < |words| ==> words[k].Sample?
    ensures |Expand(words)| == |words|
  {
    if |words| == 0 {
    } else {
      SamplesCount(words[..|words| - 1]);
    }
  }

  lemma RepeatShown(events: seq<Event>, end: nat, front: seq<Word>, extra: nat)
    requires Ordered(events, end) && Waveform(events, end) == Expand(front)
    requires |events| > 0 && events[|events| - 1].time < end
    ensures Ordered(events, end + extra + 1)
    ensures Waveform(events, end + extra + 1) == Expand(front + [Repeat(extra)])
  {
    Holds(events, end, extra + 1);
    ExpandOne(front, Repeat(extra));
  }

  lemma SampleShown(events: seq<Event>, end: nat, front: seq<Word>, v: nat)
    requires Ordered(events, end) && Waveform(events, end) == Expand(front)
    ensures var next := events + [Event(end, v)];
      Ordered(next, end + 1) && Waveform(next, end + 1) == Expand(front + [Sample(v)])
  {
    NewEvent(events, end, v);
    ExpandOne(front, Sample(v));
  }

  lemma {:induction false} WaveformLength(events: seq<Event>, end: nat)
    requires Ordered(events, end)
    ensures |Waveform(events, end)| == if |events| == 0 then 0 else end - events[0].time
  {
    if |events| == 0 {
    } else {
      WaveformLength(events[..|events| - 1], events[|events| - 1].time);
    }
  }

  lemma OneMoreWord(words: seq<Word>, i: nat)
    requires i < |words|
    ensures words[..i + 1] == words[..i] + [words[i]]
    ensures |Expand(words[..i + 1])| <= |Expand(words)|
  {
    ExpandGrows(words[..i + 1], words[i + 1..]);
    assert words[..i + 1] + words[i + 1..] == words;
  }

  /** So no word of such a trace gets the mark. */
  lemma NeverMarked(words: seq<Word>, alen: nat, holdoff: nat)
    requires |Expand(words)| <= alen < 0x8000_0000 && holdoff < alen
    ensures forall k :: 0 <= k < |words| ==> !MarkedAt(words, alen, holdoff, k)
  {
    hide Expand, Marks;
    forall k | 0 <= k < |words|
      ensures !MarkedAt(words, alen, holdoff, k)
    {
      if words[k].Sample? {
        OneMoreWord(words, k);
        ExpandOne(words[..k], words[k]);
        SampleLengthens(Expand(words[..k]), words[k]);
        MarkIsMissed(|Expand(words[..k])|, alen, holdoff);
      }
    }
  }

  lemma SampleLengthens(samples: seq<nat>, w: Word)
    requires w.Sample?
    ensures |Extend(samples, w)| == |samples| + 1
  {
  }

  /** The compressed branch of writevcd(): the events it writes, the time it ends at, and
      whether it ever marks the trigger. */
  method WriteTrace(words: seq<Word>, alen: nat, holdoff: nat)
    returns (events: seq<Event>, addrv: nat, marked: bool)
    requires Alternating(words)
    ensures Ordered(events, addrv) && Waveform(events, addrv) == Expand(words)
    ensures addrv == |Expand(words)|
    ensures marked <==> exists k :: 0 <= k < |words| && MarkedAt(words, alen, holdoff, k)
  {
    hide Expand, Waveform, Ordered, Int32, MarkedAt;
    var offset := Int32(alen - holdoff - 1);
    events, addrv, marked := [], 0, false;
    var i := 0;
    NothingYet();
    assert words[..0] == [];
    while i < |words|
      invariant 0 <= i <= |words|
      invariant Ordered(events, addrv) && Waveform(events, addrv) == Expand(words[..i])
      invariant addrv == |Expand(words[..i])|
      invariant marked <==> exists k :: 0 <= k < i && MarkedAt(words, alen, holdoff, k)
      invariant i > 0 && words[i - 1].Sample? ==> |events| > 0 && events[|events| - 1].time < addrv
      invariant i == 0 ==> events == [] && addrv == 0
    {
      OneMoreWord(words, i);
      MarkedIs(words, alen, holdoff, i);
      match words[i] {
        case Repeat(extra) =>
          ExpandOne(words[..i], words[i]);
          if i != 0 {
            RepeatShown(events, addrv, words[..i], extra);
            addrv := addrv + extra + 1;
          }
        case Sample(v) =>
          ExpandOne(words[..i], words[i]);
          if Int32(addrv - alen) == offset {
            marked := true;
          }
          SampleShown(events, addrv, words[..i], v);
          events := events + [Event(addrv, v)];
          addrv := addrv + 1;
      }
      i := i + 1;
    }
    assert words[..i] == words;
  }

  lemma MarkedIs(words: seq<Word>, alen: nat, holdoff: nat, k: nat)
    requires k < |words|
    ensures MarkedAt(words, alen, holdoff, k) <==>
      words[k].Sample? && Int32(|Expand(words[..k])| - alen) == Int32(alen - holdoff - 1)
  {
  }

  /** Everything the port has to give has come back. */
  ghost predicate ReadOut(got: seq<ScopeMemory.Out<Word>>, words: seq<Word>)
  {
    |got| == |words| && forall n :: 0 <= n < |got| ==> got[n] == ScopeMemory.Memory(words[n])
  }

  lemma ReadOutIs(seen: ScopeMemory.Reads<Word>, memory: seq<Word>, strobes: nat, words: seq<Word>)
    requires WbScopC.Returned(seen, memory, strobes) && ReadOut(seen.got, words) && |words| == |memory|
    ensures words == memory
  {
    forall n | 0 <= n < |words|
      ensures words[n] == memory[n]
    {
      assert ScopeMemory.Memory(words[n]) == ScopeMemory.Memory(memory[n]);
    }
  }

  /** rawread() and writevcd(), end to end: `words` is what the port returned, after a capture
      from a reset to the stop and any patient run of reads.  The trace shows consecutive samples
      of the data that came in, every one of them for as long as it lasted, and ends `holdoff` + 1
      after the trigger if the control register was left alone. */
  method WriteVcd(words: seq<Word>, holdoff: nat, ghost p: WbScopC.Params, ghost s: WbScopC.Scope,
                  ghost inputs: seq<WbScopC.Input>, ghost later: seq<WbScopC.Input>)
    returns (events: seq<Event>, end: nat, marked: bool)
    requires WbScopC.Captures(p, s, inputs) && WbScopC.Patient(p, later)
    requires |later| > 0 && WbScopC.Strobe(later[0]) ==> !WbScopC.Strobe(inputs[|inputs| - 1])
    requires var ro := WbScopC.Readout(WbScopC.Run(p, s, inputs), ScopeMemory.Reads([], false, false));
      ReadOut(WbScopC.RunReads(p, ro, later).seen.got, words) && |words| == p.depth
    ensures Ordered(events, end)
    ensures WbScopC.Window(Waveform(events, end), WbScopC.Incoming(s, inputs))
    ensures WbScopC.Undisturbed(inputs) && s.regs.config.holdoff < p.holdoffLimit ==>
      var h := WbScopC.Run(p, s, inputs).history;
      WbScopC.EndsAt(Waveform(events, end), h.samples, h.trigger + s.regs.config.holdoff + 1)
  {
    hide WbScopC.Run, WbScopC.RunReads, WbScopC.Returned, WbScopC.Window, ScopeMemory.Oldest, ReadOut, Ordered, Waveform,
         Expand, WbScopC.Incoming, WbScopC.EndsAt, WbScopC.Undisturbed;
    ghost var t := WbScopC.Run(p, s, inputs);
    ghost var memory := ScopeMemory.Oldest(t.regs.store.mem, t.regs.store.waddr);
    WbScopC.ReadsBack(p, s, inputs, later);
    ReadOutIs(WbScopC.RunReads(p, WbScopC.Readout(t, ScopeMemory.Reads([], false, false)), later).seen, memory,
              WbScopC.Strobes(later), words);
    var alen := AddressLength(words);
    events, end, marked := WriteTrace(words, alen, holdoff);
  }

  lemma NothingYet()
    ensures Ordered([], 0) && Waveform([], 0) == Expand([]) == []
  {
  }
}
