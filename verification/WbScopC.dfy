/** The run-length compressing scope of rtl/wbscopc.v, with SYNCHRONOUS set. */
module WbScopC {
  import opened Ring
  import opened RunLength
  import opened RunEncoder
  import opened ScopeMemory

  const STEP_LIMIT: nat := 0x8000_0000   // 2^STEP_BITS

  /** MAX_STEP, the number of words of memory, and 2^HOLDOFFBITS. */
  datatype Params = Params(maxStep: nat, depth: nat, holdoffLimit: nat) {
    predicate Valid() {
      1 <= maxStep < STEP_LIMIT && depth > 0 && holdoffLimit > 2
    }
  }

  datatype Input = Input(ce: bool, trigger: bool, data: nat, stb: bool, we: bool, addr: bool, bus: nat)

  /** br_config and br_holdoff. */
  datatype Config = Config(running: bool, manual: bool, disable: bool, holdoff: nat)

  /** dr_triggered, holdoff_counter, dr_stopped and dr_stop_pipe (bit 0 first). */
  datatype Stop = Stop(triggered: bool, counter: nat, stopped: bool, p0: bool, p1: bool, p2: bool, p3: bool, p4: bool)

  /** The run counter and the imm/lst pipeline. */
  datatype Encoder = Encoder(
    force: bool, inhibit: bool, timeout: bool, newData: bool, ck: nat, qd: nat,
    imm: Word, lst: Word, recordCe: bool, rData: Word)

  datatype Store = Store(mem: seq<Word>, waddr: nat, primed: bool)

  datatype Regs = Regs(config: Config, stop: Stop, enc: Encoder, store: Store, reader: Reader<Word>) {
    /** Memory and its addresses have the sizes the parameters give them. */
    predicate Sized(p: Params) {
      && |store.mem| == p.depth && store.waddr < p.depth
      && reader.raddr < p.depth && reader.thisAddr < p.depth
    }

    predicate Reset() {
      !config.running
    }

    predicate Trigger(i: Input) {
      store.primed && ((i.trigger && !config.disable) || config.manual)
    }

    /** A sample word is due, rather than a repeat. */
    predicate Due() {
      enc.newData || enc.force || stop.stopped
    }
  }

  function NextConfig(p: Params, c: Config, i: Input): Config
    requires p.Valid()
  {
    if i.stb && !i.addr then
      if i.we then
        Config(i.bus / 0x8000_0000 % 2 == 1, i.bus / 0x800_0000 % 2 == 1, i.bus / 0x400_0000 % 2 == 1,
               i.bus % p.holdoffLimit)
      else c
    else c.(running := true)
  }

  function NextStop(p: Params, r: Regs, i: Input): Stop
    requires p.Valid()
  {
    var s := r.stop;
    var pipe :=
      if r.Reset() then s.(p0 := false, p1 := false, p2 := false, p3 := false, p4 := false)
      else if i.ce then s.(p0 := s.stopped, p1 := s.p0, p2 := s.p1, p3 := s.p2, p4 := s.p3)
      else s;
    pipe.(
      triggered := !r.Reset() && (s.triggered || (i.ce && r.Trigger(i))),
      counter :=
        if r.Reset() then 0
        else if i.ce && s.triggered && !s.stopped then
          (if s.counter + 1 == p.holdoffLimit then 0 else s.counter + 1)
        else s.counter,
      stopped :=
        if !s.triggered || r.Reset() then false
        else if i.ce && !s.stopped then s.counter >= r.config.holdoff
        else s.stopped)
  }

  predicate NextForce(r: Regs, i: Input) {
    if r.enc.timeout && !r.enc.force && !r.enc.inhibit then true
    else (r.Trigger(i) && !r.stop.triggered) || !r.store.primed
  }

  function NextEncoder(p: Params, r: Regs, i: Input): Encoder
    requires p.Valid()
  {
    var e := r.enc;
    var both := e.lst.Repeat? && e.imm.Repeat?;
    var next := e.(
      recordCe := i.ce && !both && !r.stop.p2,
      rData := if !both then e.lst else Sample(e.qd),
      qd := if i.ce then i.data else e.qd);
    if r.Reset() then
      next.(force := true, inhibit := false, timeout := true, newData := true, ck := 0,
            imm := Repeat(0), lst := Repeat(0))
    else if i.ce then
      next.(force := NextForce(r, i), inhibit := e.force, timeout := e.ck >= p.maxStep - 1,
            newData := i.data != e.qd,
            ck := if r.Due() then 0 else if e.ck + 1 == STEP_LIMIT then 0 else e.ck + 1,
            imm := if r.Due() then Sample(e.qd) else Repeat(e.ck),
            lst := e.imm)
    else next
  }

  function NextStore(p: Params, r: Regs): Store
    requires p.Valid() && r.Sized(p)
  {
    var s := r.store;
    var mem := if r.enc.recordCe then s.mem[s.waddr := r.enc.rData] else s.mem;
    if r.Reset() then Store(mem, 0, false)
    else if r.enc.recordCe then Store(mem, Wrap(p.depth, s.waddr + 1), s.primed || s.waddr + 1 == p.depth)
    else Store(mem, s.waddr, s.primed)
  }

  /** The read side.  The register on the bus is steered by the address of the clock after the
      strobe. */
  function NextRead(p: Params, r: Regs, i: Input): Reader<Word>
    requires p.Valid() && r.Sized(p)
  {
    NextReader(p.depth, r.reader, r.store.mem, r.store.waddr, Sample(r.enc.qd),
               r.Reset() || (i.stb && i.addr && i.we), i.stb && i.addr && !i.we, r.stop.p4,
               if !i.addr then SelectControl else if !r.stop.p4 then SelectLive else SelectMemory)
  }

  function Next(p: Params, r: Regs, i: Input): (r': Regs)
    requires p.Valid() && r.Sized(p)
    ensures r'.Sized(p)
  {
    Regs(NextConfig(p, r.config, i), NextStop(p, r, i), NextEncoder(p, r, i), NextStore(p, r), NextRead(p, r, i))
  }

  // ---- What has been recorded ----------------------------------------------------------------

  /** Since the last reset: the data brought in on enabled clocks, from the last one before
      recording begins, and the number of the one that triggered; the samples the encoder has
      taken, and for each of them and the next whether it must be a word of its own; the words
      written to memory, and whether the first of those was already on its way when the reset
      came. */
  datatype History = History(samples: seq<nat>, trigger: nat, taken: seq<nat>, must: seq<bool>, log: seq<Word>, stale: bool)

  /** The next sample is written because memory is not full yet, because this one triggered, or
      because the scope stops. */
  predicate Demands(r: Regs, i: Input) {
    || !r.store.primed || (r.Trigger(i) && !r.stop.triggered)
    || (r.stop.triggered && (r.stop.stopped || r.stop.counter >= r.config.holdoff))
  }

  function NextHistory(r: Regs, h: History, i: Input): History {
    if r.Reset() then
      History([if i.ce then i.data else r.enc.qd], 0, [], [true], [], i.ce && !(r.enc.lst.Repeat? && r.enc.imm.Repeat?) && !r.stop.p2)
    else
      h.(samples := if i.ce then h.samples + [i.data] else h.samples,
         trigger := if !r.stop.triggered && i.ce && r.Trigger(i) then |h.samples| else h.trigger,
         taken := if i.ce then h.taken + [r.enc.qd] else h.taken,
         must := if i.ce then h.must + [Demands(r, i)] else h.must,
         log := if r.enc.recordCe then h.log + [r.enc.rData] else h.log)
  }

  /** The words on their way to memory.  Of two repeats in a row only the second will go. */
  function Pending(e: Encoder): seq<Word> {
    (if e.recordCe then [e.rData] else [])
    + (if e.lst.Repeat? && e.imm.Repeat? then [e.imm] else [e.lst, e.imm])
  }

  /** Everything since the reset, without the stale word. */
  function Words(r: Regs, h: History): seq<Word> {
    var all := h.log + Pending(r.enc);
    if h.stale && |all| > 0 then all[1..] else all
  }

  /** The run counter: a forced write comes before it can pass MAX_STEP, and it is not looked at
      on the one clock on which it may have wrapped. */
  predicate Counting(p: Params, e: Encoder) {
    && (e.ck > p.maxStep ==> e.force)
    && e.ck <= p.maxStep + 1 && e.ck < STEP_LIMIT
    && (e.ck == p.maxStep ==> e.timeout || e.force)
    && (e.inhibit ==> e.ck == 0)
    && (e.force || (if e.imm.Repeat? then e.ck == e.imm.extra + 1 else e.ck == 0))
    && (e.imm.Repeat? ==> e.imm.extra <= p.maxStep)
  }

  lemma CountingStep(p: Params, r: Regs, i: Input)
    requires p.Valid() && Counting(p, r.enc)
    ensures Counting(p, NextEncoder(p, r, i))
  {
  }

  // ---- Nothing lost, nothing invented ----------------------------------------------------------

  /** What is in memory or one clock from it. */
  function Leaving(e: Encoder, h: History): seq<Word> {
    h.log + (if e.recordCe then [e.rData] else [])
  }

  function Unstale(h: History, words: seq<Word>): seq<Word> {
    if h.stale && |words| > 0 then words[1..] else words
  }

  /** What is certain to be recorded, short of the newest word. */
  function Settled(e: Encoder, h: History): seq<Word> {
    Unstale(h, Leaving(e, h) + (if e.lst.Repeat? && e.imm.Repeat? then [] else [e.lst]))
  }

  ghost predicate Faithful(r: Regs, h: History)
  {
    && (h.stale ==> |Leaving(r.enc, h)| > 0)
    && (!r.stop.p2 ==> Expand(Words(r, h)) == h.taken)
    && Expand(Unstale(h, Leaving(r.enc, h))) <= h.taken
    && (|h.taken| == 0 ==> r.enc.force)
    && (|h.taken| > 0 && !r.enc.newData ==> r.enc.qd == h.taken[|h.taken| - 1])
    && (!r.stop.p2 ==> Alternating(Words(r, h)))
    && Alternating(Unstale(h, Leaving(r.enc, h)))
  }

  lemma WordsAre(r: Regs, h: History)
    requires h.stale ==> |Leaving(r.enc, h)| > 0
    ensures Words(r, h) == Settled(r.enc, h) + [r.enc.imm]
  {
  }

  /** Apart from the clocks that encode a sample, the words only move along. */
  lemma WordsIdle(p: Params, r: Regs, h: History, i: Input)
    requires p.Valid() && !r.Reset() && !i.ce && (h.stale ==> |Leaving(r.enc, h)| > 0)
    ensures var e', h' := NextEncoder(p, r, i), NextHistory(r, h, i);
      Leaving(e', h') == Leaving(r.enc, h) && Settled(e', h') == Settled(r.enc, h) && e'.imm == r.enc.imm
  {
  }

  lemma WordsMove(p: Params, r: Regs, h: History, i: Input)
    requires p.Valid() && !r.Reset() && i.ce && (h.stale ==> |Leaving(r.enc, h)| > 0)
    ensures var e, e', h' := r.enc, NextEncoder(p, r, i), NextHistory(r, h, i);
      && (!r.stop.p2 ==> Unstale(h', Leaving(e', h')) == Settled(e, h))
      && (r.stop.p2 ==> Leaving(e', h') == Leaving(e, h))
      && (!r.stop.p2 ==>
            Settled(e', h') == Settled(e, h) + (if e.imm.Repeat? && e'.imm.Repeat? then [] else [e.imm]))
  {
  }

  /** A repeat that takes over from another, or follows a sample, adds one sample. */
  lemma RepeatAdds(front: seq<Word>, imm: Word, next: nat, samples: seq<nat>)
    requires |samples| > 0 && Expand(front + [imm]) == samples
    requires next == if imm.Repeat? then imm.extra + 1 else 0
    ensures Expand((if imm.Repeat? then front else front + [imm]) + [Repeat(next)])
         == samples + [samples[|samples| - 1]]
  {
    ExpandOne(front, imm);
    if imm.Repeat? {
      ExpandOne(front, Repeat(next));
      LongerRepeat(Expand(front), imm.extra);
    } else {
      ExpandOne(front + [imm], Repeat(next));
      assert Copies(samples[|samples| - 1], 1) == [samples[|samples| - 1]];
    }
  }

  /** The newest word takes in exactly the newest sample. */
  lemma SampleTaken(p: Params, r: Regs, h: History, i: Input)
    requires p.Valid() && !r.Reset() && i.ce && !r.stop.p2 && Faithful(r, h) && Counting(p, r.enc)
    ensures var e', h' := NextEncoder(p, r, i), NextHistory(r, h, i);
      Expand(Settled(e', h') + [e'.imm]) == h.taken + [r.enc.qd]
  {
    hide Settled, Unstale, Words, Leaving, Alternating;
    var e, front := r.enc, Settled(r.enc, h);
    WordsMove(p, r, h, i);
    WordsAre(r, h);
    RepeatIs(p, r, h);
    hide Counting, Faithful;
    if r.Due() {
      ExpandOne(front + [e.imm], Sample(e.qd));
    } else {
      RepeatAdds(front, e.imm, e.ck, h.taken);
      assert front + [] == front;
    }
  }

  lemma RepeatIs(p: Params, r: Regs, h: History)
    requires !r.stop.p2 && Faithful(r, h) && Counting(p, r.enc)
    ensures Expand(Words(r, h)) == h.taken && (h.stale ==> |Leaving(r.enc, h)| > 0)
    ensures !r.Due() ==>
      && |h.taken| > 0 && r.enc.qd == h.taken[|h.taken| - 1]
      && r.enc.ck == (if r.enc.imm.Repeat? then r.enc.imm.extra + 1 else 0)
  {
    hide Words, Leaving, Alternating, Expand, Unstale;
  }

  lemma FaithfulIdle(p: Params, r: Regs, h: History, i: Input)
    requires p.Valid() && r.Sized(p) && !r.Reset() && Faithful(r, h) && !i.ce
    ensures Faithful(Next(p, r, i), NextHistory(r, h, i))
  {
    WordsIdle(p, r, h, i);
    WordsAre(r, h);
    WordsAre(Next(p, r, i), NextHistory(r, h, i));
  }

  /** A repeat that follows a repeat replaces it. */
  lemma AlternatingLive(p: Params, r: Regs, h: History, i: Input)
    requires p.Valid() && !r.Reset() && i.ce && !r.stop.p2 && Faithful(r, h)
    ensures var e', h' := NextEncoder(p, r, i), NextHistory(r, h, i);
      Alternating(Settled(e', h') + [e'.imm]) && Alternating(Unstale(h', Leaving(e', h')))
  {
    hide Settled, Words, Unstale, Leaving, Expand;
    WordsMove(p, r, h, i);
    WordsAre(r, h);
    var words := Words(r, h);
    assert words[..|words| - 1] == Settled(r.enc, h);
    AlternatingPart(words, 0, |words| - 1);
    assert words[|words| - 1] == r.enc.imm;
  }

  lemma FaithfulLive(p: Params, r: Regs, h: History, i: Input)
    requires p.Valid() && r.Sized(p) && !r.Reset() && Faithful(r, h) && Counting(p, r.enc) && i.ce && !r.stop.p2
    ensures Faithful(Next(p, r, i), NextHistory(r, h, i))
  {
    hide Settled, Words, Unstale, Alternating;
    WordsMove(p, r, h, i);
    SampleTaken(p, r, h, i);
    AlternatingLive(p, r, h, i);
    WordsAre(r, h);
    WordsAre(Next(p, r, i), NextHistory(r, h, i));
    ExpandGrows(Settled(r.enc, h), [r.enc.imm]);
  }

  lemma FaithfulStopped(p: Params, r: Regs, h: History, i: Input)
    requires p.Valid() && r.Sized(p) && !r.Reset() && Faithful(r, h) && Stopping(r.stop) && i.ce && r.stop.p2
    ensures Faithful(Next(p, r, i), NextHistory(r, h, i))
  {
    WordsMove(p, r, h, i);
  }

  lemma FaithfulStep(p: Params, r: Regs, h: History, i: Input)
    requires p.Valid() && r.Sized(p) && !r.Reset() && Faithful(r, h) && Counting(p, r.enc) && Stopping(r.stop)
    ensures Faithful(Next(p, r, i), NextHistory(r, h, i))
  {
    if !i.ce {
      FaithfulIdle(p, r, h, i);
    } else if r.stop.p2 {
      FaithfulStopped(p, r, h, i);
    } else {
      FaithfulLive(p, r, h, i);
    }
  }

  /** The encoder is one sample behind the input. */
  predicate Lagging(r: Regs, h: History) {
    h.samples == h.taken + [r.enc.qd]
  }

  lemma LaggingStep(p: Params, r: Regs, h: History, i: Input)
    requires p.Valid() && r.Sized(p) && (r.Reset() || Lagging(r, h))
    ensures Lagging(Next(p, r, i), NextHistory(r, h, i))
  {
    hide NextStore, NextStop, NextRead, NextConfig;
  }

  /** Stopping is for good, until a reset. */
  predicate Stopping(s: Stop) {
    && (s.p4 ==> s.p3) && (s.p3 ==> s.p2) && (s.p2 ==> s.p1) && (s.p1 ==> s.p0)
    && (s.p0 ==> s.stopped) && (s.stopped ==> s.triggered)
  }

  lemma StoppingStep(p: Params, r: Regs, i: Input)
    requires p.Valid() && (r.Reset() || Stopping(r.stop))
    ensures Stopping(NextStop(p, r, i))
  {
  }

  /** A reset starts a new history, whatever came before it. */
  lemma ResetStarts(p: Params, r: Regs, h: History, i: Input)
    requires p.Valid() && r.Sized(p) && r.Reset()
    ensures Faithful(Next(p, r, i), NextHistory(r, h, i))
    ensures Counting(p, Next(p, r, i).enc)
  {
    hide NextStore, NextRead, NextConfig;
    var r', h' := Next(p, r, i), NextHistory(r, h, i);
    assert Leaving(r'.enc, h') == if h'.stale then [r'.enc.rData] else [];
    WordsAre(r', h');
    ExpandOne([], Repeat(0));
    assert Settled(r'.enc, h') == [];
  }

  // ---- It compresses ---------------------------------------------------------------------------

  /** The encoder's flags say of the next sample what the reference encoder says of it. */
  ghost predicate Flagged(p: Params, r: Regs, h: History)
  {
    var e, x, n := r.enc, h.taken, |h.taken|;
    && |h.must| == n + 1 && (n == 0 ==> e.force && !e.inhibit) && (r.stop.stopped ==> h.must[n])
    && (e.force || r.stop.stopped <==> Forced(x, h.must, p.maxStep, n))
    && (e.newData <==> n == 0 || e.qd != x[n - 1])
    && (e.force || r.stop.stopped || e.ck == Quiet(x, h.must, p.maxStep, n))
    && (!r.stop.stopped && n > 0 ==>
          && (e.inhibit <==> Forced(x, h.must, p.maxStep, n - 1))
          && (e.inhibit || (e.timeout <==> Quiet(x, h.must, p.maxStep, n - 1) + 1 >= p.maxStep)))
  }

  /** What has been taken is encoded as the reference encodes it. */
  ghost predicate Encoded(p: Params, r: Regs, h: History)
  {
    && |h.must| == |h.taken| + 1
    && (!r.stop.p2 ==> Words(r, h) == Encode(h.taken, h.must, p.maxStep, |h.taken|))
  }

  lemma FlaggedIdle(p: Params, r: Regs, h: History, i: Input)
    requires p.Valid() && r.Sized(p) && !r.Reset() && Flagged(p, r, h) && !i.ce && Stopping(r.stop)
    ensures Flagged(p, Next(p, r, i), NextHistory(r, h, i))
  {
    hide NextStore, NextRead, NextConfig, Forced, Quiet;
  }

  /** The reference on one sample more. */
  lemma Before(p: Params, r: Regs, h: History, i: Input)
    requires |h.must| == |h.taken| + 1 && !r.Reset() && i.ce
    ensures var h', n := NextHistory(r, h, i), |h.taken|;
      && h'.taken == h.taken + [r.enc.qd] && h'.must == h.must + [Demands(r, i)]
      && Forced(h'.taken, h'.must, p.maxStep, n) == Forced(h.taken, h.must, p.maxStep, n)
      && Quiet(h'.taken, h'.must, p.maxStep, n) == Quiet(h.taken, h.must, p.maxStep, n)
      && Encode(h'.taken, h'.must, p.maxStep, n) == Encode(h.taken, h.must, p.maxStep, n)
      && (n > 0 ==>
            && Forced(h'.taken, h'.must, p.maxStep, n - 1) == Forced(h.taken, h.must, p.maxStep, n - 1)
            && Quiet(h'.taken, h'.must, p.maxStep, n - 1) == Quiet(h.taken, h.must, p.maxStep, n - 1))
  {
    hide Demands, Forced, Quiet, Encode;
    var h', n := NextHistory(r, h, i), |h.taken|;
    ForcedBefore(h.taken, h.must, h'.taken, h'.must, p.maxStep, n);
    QuietBefore(h.taken, h.must, h'.taken, h'.must, p.maxStep, n);
    EncodeBefore(h.taken, h.must, h'.taken, h'.must, p.maxStep, n);
    if n > 0 {
      ForcedBefore(h.taken, h.must, h'.taken, h'.must, p.maxStep, n - 1);
      QuietBefore(h.taken, h.must, h'.taken, h'.must, p.maxStep, n - 1);
    }
  }

  lemma DueIs(p: Params, r: Regs, h: History, i: Input)
    requires Flagged(p, r, h) && !r.Reset() && i.ce
    ensures var h', n := NextHistory(r, h, i), |h.taken|;
      |h'.taken| == n + 1 && |h'.must| == n + 2 && (r.Due() <==> Due(h'.taken, h'.must, p.maxStep, n))
  {
    Before(p, r, h, i);
    hide Forced, Quiet, Encode, Demands;
  }

  lemma QuietIs(p: Params, r: Regs, h: History, i: Input)
    requires Flagged(p, r, h) && !r.Reset() && i.ce
    ensures var h', n := NextHistory(r, h, i), |h.taken|;
      && |h'.taken| == n + 1 && |h'.must| == n + 2
      && Quiet(h'.taken, h'.must, p.maxStep, n + 1) == (if r.Due() then 0 else Quiet(h.taken, h.must, p.maxStep, n) + 1)
  {
    Before(p, r, h, i);
    DueIs(p, r, h, i);
    hide Forced, Encode, Demands, Due, Flagged;
  }

  lemma ForcedIs(p: Params, r: Regs, h: History, i: Input)
    requires p.Valid() && Flagged(p, r, h) && !r.Reset() && i.ce && Stopping(r.stop)
    ensures var r', h', n := NextEncoder(p, r, i), NextHistory(r, h, i), |h.taken|;
      && |h'.taken| == n + 1 && |h'.must| == n + 2
      && (r'.force || NextStop(p, r, i).stopped <==> Forced(h'.taken, h'.must, p.maxStep, n + 1))
  {
    Before(p, r, h, i);
    hide Quiet, Encode;
  }

  lemma FlaggedStep(p: Params, r: Regs, h: History, i: Input)
    requires p.Valid() && r.Sized(p) && !r.Reset() && Flagged(p, r, h) && Counting(p, r.enc) && Stopping(r.stop)
    ensures Flagged(p, Next(p, r, i), NextHistory(r, h, i))
  {
    if !i.ce {
      FlaggedIdle(p, r, h, i);
    } else {
      Before(p, r, h, i);
      QuietIs(p, r, h, i);
      ForcedIs(p, r, h, i);
      hide NextStore, NextRead, NextConfig, Forced, Quiet, Encode, Due;
    }
  }

  /** An enabled clock writes one sample. */
  lemma WordsWritten(p: Params, r: Regs, h: History, i: Input)
    requires p.Valid() && !r.Reset() && i.ce && !r.stop.p2 && Faithful(r, h) && Counting(p, r.enc)
    ensures var e', h' := NextEncoder(p, r, i), NextHistory(r, h, i);
      |Words(r, h)| > 0 && Settled(e', h') + [e'.imm] == Write(Words(r, h), r.enc.qd, r.Due())
  {
    hide Words, Settled, Unstale, Leaving, Expand, Alternating;
    WordsMove(p, r, h, i);
    WordsAre(r, h);
    var e := r.enc;
    var e' := NextEncoder(p, r, i);
    WriteAfter(Settled(e, h), e.imm, e.qd, r.Due());
    assert e'.imm == if r.Due() then Sample(e.qd) else Repeat(e.ck);
  }

  lemma WriteAfter(front: seq<Word>, last: Word, v: nat, due: bool)
    ensures Write(front + [last], v, due) ==
      if due then front + [last] + [Sample(v)]
      else if last.Repeat? then front + [Repeat(last.extra + 1)] else front + [last] + [Repeat(0)]
  {
    assert (front + [last])[..|front|] == front;
  }

  lemma EncodedStep(p: Params, r: Regs, h: History, i: Input)
    requires p.Valid() && r.Sized(p) && !r.Reset() && Flagged(p, r, h) && Faithful(r, h) && Counting(p, r.enc)
    requires Stopping(r.stop) && Encoded(p, r, h)
    ensures Encoded(p, Next(p, r, i), NextHistory(r, h, i))
  {
    if !i.ce {
      hide NextStore, NextRead, NextConfig, Encode, Flagged, Counting, Expand, Alternating, Settled;
      WordsIdle(p, r, h, i);
      WordsAre(r, h);
      WordsAre(Next(p, r, i), NextHistory(r, h, i));
    } else {
      EncodedSample(p, r, h, i);
    }
  }

  lemma EncodedSample(p: Params, r: Regs, h: History, i: Input)
    requires p.Valid() && r.Sized(p) && !r.Reset() && Flagged(p, r, h) && Faithful(r, h) && Counting(p, r.enc)
    requires Stopping(r.stop) && Encoded(p, r, h) && i.ce
    ensures Encoded(p, Next(p, r, i), NextHistory(r, h, i))
  {
    hide NextStore, NextRead, NextConfig, NextEncoder, Expand, Alternating, Settled, Write, Words, Due, Forced, Quiet;
    Before(p, r, h, i);
    DueIs(p, r, h, i);
    if !r.stop.p2 {
      WordsWritten(p, r, h, i);
      StaleKept(p, r, h, i);
      WordsAre(Next(p, r, i), NextHistory(r, h, i));
    }
    hide Faithful, Counting, Flagged, Demands, NextHistory;
  }

  lemma StaleKept(p: Params, r: Regs, h: History, i: Input)
    requires p.Valid() && r.Sized(p) && !r.Reset() && Faithful(r, h) && Counting(p, r.enc) && Stopping(r.stop)
    ensures var r', h' := Next(p, r, i), NextHistory(r, h, i); h'.stale ==> |Leaving(r'.enc, h')| > 0
  {
    FaithfulStep(p, r, h, i);
  }

  // ---- Runs ------------------------------------------------------------------------------------

  /** What every state after a reset keeps. */
  ghost predicate Invariant(p: Params, r: Regs, h: History)
  {
    && p.Valid() && r.Sized(p)
    && Counting(p, r.enc) && Stopping(r.stop) && Faithful(r, h) && Lagging(r, h)
    && Holds(p.depth, r.store.mem, r.store.waddr, r.store.primed, h.log)
    && (r.stop.p3 ==> !r.enc.recordCe)
    && Armed(p, r, h) && (!r.stop.p4 ==> r.reader.raddr == 0)
  }

  lemma StoreStep(p: Params, r: Regs, h: History, i: Input)
    requires p.Valid() && r.Sized(p)
    requires r.Reset() || Holds(p.depth, r.store.mem, r.store.waddr, r.store.primed, h.log)
    ensures var s', h' := NextStore(p, r), NextHistory(r, h, i);
      Holds(p.depth, s'.mem, s'.waddr, s'.primed, h'.log)
  {
    if r.Reset() {
      HoldsNothing(p.depth, NextStore(p, r).mem);
    } else if r.enc.recordCe {
      HoldsOneMore(p.depth, r.store.mem, r.store.waddr, r.store.primed, h.log, r.enc.rData);
    }
  }

  lemma FreezeStep(p: Params, r: Regs, i: Input)
    requires p.Valid() && (r.Reset() || Stopping(r.stop))
    ensures NextStop(p, r, i).p3 ==> !NextEncoder(p, r, i).recordCe
  {
  }

  /** The trigger finds memory full, and forces one word more into it before the stop takes hold:
      written, on its way, encoded, or yet to be encoded. */
  predicate Armed(p: Params, r: Regs, h: History) {
    r.stop.triggered ==>
      && r.store.primed
      && (|h.log| > p.depth || r.enc.recordCe || (r.enc.imm.Sample? && !r.stop.p0) || (r.enc.force && !r.stop.stopped))
  }

  lemma ArmedStep(p: Params, r: Regs, h: History, i: Input)
    requires p.Valid() && r.Sized(p)
    requires r.Reset() || (Armed(p, r, h) && Stopping(r.stop) && (r.store.primed ==> |h.log| >= p.depth))
    ensures Armed(p, Next(p, r, i), NextHistory(r, h, i))
  {
    hide NextRead, NextConfig;
  }

  lemma AddressStep(p: Params, r: Regs, i: Input)
    requires p.Valid() && r.Sized(p) && (r.Reset() || (Stopping(r.stop) && (!r.stop.p4 ==> r.reader.raddr == 0)))
    ensures !Next(p, r, i).stop.p4 ==> Next(p, r, i).reader.raddr == 0
  {
    hide NextStore, NextEncoder, NextConfig;
  }

  lemma InvariantStep(p: Params, r: Regs, h: History, i: Input)
    requires p.Valid() && r.Sized(p) && (r.Reset() || Invariant(p, r, h))
    ensures Invariant(p, Next(p, r, i), NextHistory(r, h, i))
  {
    hide NextStore, NextEncoder, NextStop, NextRead, NextHistory, Faithful, Counting, Stopping, Armed, Lagging;
    ArmedStep(p, r, h, i);
    LaggingStep(p, r, h, i);
    AddressStep(p, r, i);
    StoreStep(p, r, h, i);
    StoppingStep(p, r, i);
    FreezeStep(p, r, i);
    if r.Reset() {
      ResetStarts(p, r, h, i);
    } else {
      CountingStep(p, r, i);
      FaithfulStep(p, r, h, i);
    }
  }

  datatype Scope = Scope(regs: Regs, history: History)

  function Run(p: Params, s: Scope, inputs: seq<Input>): (t: Scope)
    requires p.Valid() && s.regs.Sized(p)
    ensures t.regs.Sized(p)
  {
    if |inputs| == 0 then s
    else
      var t, i := Run(p, s, inputs[..|inputs| - 1]), inputs[|inputs| - 1];
      Scope(Next(p, t.regs, i), NextHistory(t.regs, t.history, i))
  }

  /** From any state in which the scope is in reset, with any inputs. */
  lemma {:induction false} RunInvariant(p: Params, s: Scope, inputs: seq<Input>)
    requires p.Valid() && s.regs.Sized(p) && s.regs.Reset() && |inputs| > 0
    ensures var t := Run(p, s, inputs); Invariant(p, t.regs, t.history)
  {
    var before, i := inputs[..|inputs| - 1], inputs[|inputs| - 1];
    var t := Run(p, s, before);
    if |before| > 0 {
      RunInvariant(p, s, before);
    }
    InvariantStep(p, t.regs, t.history, i);
  }

  /** The data brought in on the enabled clocks of a run. */
  function Enabled(inputs: seq<Input>): seq<nat> {
    if |inputs| == 0 then []
    else
      var i := inputs[|inputs| - 1];
      Enabled(inputs[..|inputs| - 1]) + (if i.ce then [i.data] else [])
  }

  /** What came in over the whole run, after the last sample from before it. */
  function Incoming(s: Scope, inputs: seq<Input>): seq<nat> {
    [s.regs.enc.qd] + Enabled(inputs)
  }

  lemma QdIs(p: Params, r: Regs, i: Input)
    requires p.Valid() && r.Sized(p)
    ensures Next(p, r, i).enc.qd == if i.ce then i.data else r.enc.qd
  {
    hide NextStore, NextStop, NextRead, NextConfig;
  }

  /** The samples counted since the last reset are the latest that came in. */
  predicate ComesIn(r: Regs, h: History, incoming: seq<nat>) {
    |incoming| > 0 && r.enc.qd == incoming[|incoming| - 1] && |h.samples| > 0 && Suffix(h.samples, incoming)
  }

  lemma ComesInStep(p: Params, r: Regs, h: History, incoming: seq<nat>, i: Input)
    requires p.Valid() && r.Sized(p) && |incoming| > 0 && r.enc.qd == incoming[|incoming| - 1]
    requires r.Reset() || ComesIn(r, h, incoming)
    ensures ComesIn(Next(p, r, i), NextHistory(r, h, i), if i.ce then incoming + [i.data] else incoming)
  {
    QdIs(p, r, i);
    hide Next;
    if i.ce && !r.Reset() {
      SuffixAppend(h.samples, incoming, [i.data]);
    }
  }

  lemma OneMoreIn(s: Scope, inputs: seq<Input>)
    requires |inputs| > 0
    ensures var before, i := Incoming(s, inputs[..|inputs| - 1]), inputs[|inputs| - 1];
      |before| > 0 && Incoming(s, inputs) == if i.ce then before + [i.data] else before
  {
  }

  lemma {:induction false} SamplesComeIn(p: Params, s: Scope, inputs: seq<Input>)
    requires p.Valid() && s.regs.Sized(p) && s.regs.Reset()
    ensures var t, incoming := Run(p, s, inputs), Incoming(s, inputs);
      && |incoming| > 0 && t.regs.enc.qd == incoming[|incoming| - 1]
      && (|inputs| > 0 ==> ComesIn(t.regs, t.history, incoming))
  {
    if |inputs| == 0 {
    } else {
      hide Next, NextHistory, Incoming, Suffix;
      var before, i := inputs[..|inputs| - 1], inputs[|inputs| - 1];
      var t := Run(p, s, before);
      SamplesComeIn(p, s, before);
      OneMoreIn(s, inputs);
      ComesInStep(p, t.regs, t.history, Incoming(s, before), i);
    }
  }

  /** Until the scope stops, what it has recorded and what is pending stand for all the data that
      came in on enabled clocks since the reset but the newest; afterwards, what it has recorded
      stands for the first of it. */
  lemma RecordsFaithfully(p: Params, s: Scope, inputs: seq<Input>)
    requires p.Valid() && s.regs.Sized(p) && s.regs.Reset() && |inputs| > 0
    ensures var t := Run(p, s, inputs); var samples := t.history.samples;
      && |samples| > 0 && Suffix(samples, Incoming(s, inputs))
      && (!t.regs.stop.p2 ==> Expand(Words(t.regs, t.history)) == samples[..|samples| - 1])
      && Expand(Unstale(t.history, t.history.log)) <= samples[..|samples| - 1]
  {
    RunInvariant(p, s, inputs);
    SamplesComeIn(p, s, inputs);
    var t := Run(p, s, inputs);
    hide Run, Incoming, Counting, Holds;
    assert t.history.samples[..|t.history.samples| - 1] == t.history.taken;
    LogIsLeaving(t.regs.enc, t.history);
  }

  lemma LogIsLeaving(e: Encoder, h: History)
    ensures Expand(Unstale(h, h.log)) <= Expand(Unstale(h, Leaving(e, h)))
  {
    if |h.log| == 0 {
      assert Expand([]) == [];
    } else {
      var rest := Leaving(e, h)[|h.log|..];
      assert Unstale(h, Leaving(e, h)) == Unstale(h, h.log) + rest;
      ExpandGrows(Unstale(h, h.log), rest);
    }
  }

  lemma ResetEncodes(p: Params, r: Regs, h: History, i: Input)
    requires p.Valid() && r.Sized(p) && r.Reset()
    ensures Flagged(p, Next(p, r, i), NextHistory(r, h, i)) && Encoded(p, Next(p, r, i), NextHistory(r, h, i))
  {
    hide NextStore, NextRead, NextConfig;
    var r', h' := Next(p, r, i), NextHistory(r, h, i);
    assert Leaving(r'.enc, h') == if h'.stale then [r'.enc.rData] else [];
    WordsAre(r', h');
    assert Settled(r'.enc, h') == [];
  }

  lemma {:induction false} RunEncoded(p: Params, s: Scope, inputs: seq<Input>)
    requires p.Valid() && s.regs.Sized(p) && s.regs.Reset() && |inputs| > 0
    ensures var t := Run(p, s, inputs); Flagged(p, t.regs, t.history) && Encoded(p, t.regs, t.history)
  {
    hide Next, NextHistory, Flagged, Encoded, Faithful, Counting, Stopping, Holds, Armed;
    var before, i := inputs[..|inputs| - 1], inputs[|inputs| - 1];
    var t := Run(p, s, before);
    if t.regs.Reset() {
      ResetEncodes(p, t.regs, t.history, i);
    } else {
      RunEncoded(p, s, before);
      RunInvariant(p, s, before);
      FlaggedStep(p, t.regs, t.history, i);
      EncodedStep(p, t.regs, t.history, i);
    }
  }

  function AllButNewest(samples: seq<nat>): seq<nat> {
    if |samples| == 0 then [] else samples[..|samples| - 1]
  }

  /** In every run, until the scope stops, the words are those of the reference encoder for the
      data that came in on enabled clocks: a sample is written if it differs from the one before,
      if it must be, or after MAX_STEP without one; every other is counted in a repeat. */
  lemma EncodesInput(p: Params, s: Scope, inputs: seq<Input>)
    requires p.Valid() && s.regs.Sized(p) && s.regs.Reset() && |inputs| > 0 && !Run(p, s, inputs).regs.stop.p2
    ensures var t := Run(p, s, inputs); var x := AllButNewest(t.history.samples);
      && Suffix(t.history.samples, Incoming(s, inputs)) && |t.history.must| == |x| + 1
      && Words(t.regs, t.history) == Encode(x, t.history.must, p.maxStep, |x|)
  {
    hide Run, Incoming, Encode, Words, Faithful, Counting, Holds, Armed, Flagged;
    RecordsFaithfully(p, s, inputs);
    RunEncoded(p, s, inputs);
    RunInvariant(p, s, inputs);
    assert AllButNewest(Run(p, s, inputs).history.samples) == Run(p, s, inputs).history.taken;
  }

  /** So while the data holds, with memory full, no trigger and no stop, up to MAX_STEP + 2 samples
      cost at most three words. */
  lemma RunCompresses(p: Params, s: Scope, inputs: seq<Input>, a: nat)
    requires p.Valid() && s.regs.Sized(p) && s.regs.Reset() && |inputs| > 0 && !Run(p, s, inputs).regs.stop.p2
    requires var h := Run(p, s, inputs).history; var n := |h.samples| - 1;
      && 0 < a <= n <= a + p.maxStep + 2 && n <= |h.must| && Free(h.must, a, n)
      && forall k :: a <= k < n ==> h.samples[k] == h.samples[k - 1]
    ensures var t := Run(p, s, inputs); var x := AllButNewest(t.history.samples);
      && |t.history.must| == |x| + 1
      && |Words(t.regs, t.history)| <= |Encode(x, t.history.must, p.maxStep, a)| + 3
  {
    hide Run, Incoming, Encode, Words;
    EncodesInput(p, s, inputs);
    var h := Run(p, s, inputs).history;
    var x := AllButNewest(h.samples);
    Compresses(x, h.must, p.maxStep, a, |x|);
  }

  // ---- The trigger ------------------------------------------------------------------------------

  /** Clock `k` of a run brings a sample with a trigger the control register lets through, and
      memory is full. */
  predicate Fires(p: Params, s: Scope, inputs: seq<Input>, k: nat)
    requires p.Valid() && s.regs.Sized(p)
  {
    && k < |inputs| && inputs[k].ce
    && (s.regs.config.manual || (inputs[k].trigger && !s.regs.config.disable))
    && var t := Run(p, s, inputs[..k]);
       !t.regs.Reset() && |t.history.log| >= p.depth
  }

  predicate FirstFires(p: Params, s: Scope, inputs: seq<Input>, k: nat)
    requires p.Valid() && s.regs.Sized(p)
  {
    Fires(p, s, inputs, k) && forall j: nat :: j < k ==> !Fires(p, s, inputs, j)
  }

  lemma FiresBefore(p: Params, s: Scope, inputs: seq<Input>, k: nat)
    requires p.Valid() && s.regs.Sized(p) && k + 1 < |inputs|
    ensures Fires(p, s, inputs, k) == Fires(p, s, inputs[..|inputs| - 1], k)
  {
    assert inputs[..|inputs| - 1][..k] == inputs[..k];
  }

  lemma TriggerMoves(p: Params, r: Regs, h: History, i: Input)
    requires p.Valid() && r.Sized(p) && (r.Reset() || Invariant(p, r, h)) && !Configures(i)
    ensures var r', h' := Next(p, r, i), NextHistory(r, h, i);
      && r'.config.manual == r.config.manual && r'.config.disable == r.config.disable
      && (r.Reset() ==> !r'.stop.triggered)
      && (!r.Reset() ==>
            r'.stop.triggered ==
              (r.stop.triggered
               || (i.ce && |h.log| >= p.depth && (r.config.manual || (i.trigger && !r.config.disable)))))
      && (!r.Reset() && r'.stop.triggered ==> h'.trigger == if r.stop.triggered then h.trigger else |h.samples|)
  {
    hide NextStore, NextRead, NextEncoder, Faithful, Counting, Stopping, Armed;
  }

  /** The scope has triggered exactly if some clock has fired, and the sample it counts from is the
      one the first such clock brought. */
  ghost predicate TriggeredRight(p: Params, s: Scope, inputs: seq<Input>)
    requires p.Valid() && s.regs.Sized(p)
  {
    var t := Run(p, s, inputs);
    if t.regs.stop.triggered then
      exists k: nat ::
        FirstFires(p, s, inputs, k) && t.history.trigger == |Run(p, s, inputs[..k]).history.samples|
    else forall k: nat :: !Fires(p, s, inputs, k)
  }

  lemma RightBefore(p: Params, s: Scope, inputs: seq<Input>)
    requires p.Valid() && s.regs.Sized(p) && |inputs| > 0
    requires TriggeredRight(p, s, inputs[..|inputs| - 1])
    requires var before, i := inputs[..|inputs| - 1], inputs[|inputs| - 1];
      var t, u := Run(p, s, before), Run(p, s, inputs);
      && (u.regs.stop.triggered <==> t.regs.stop.triggered || Fires(p, s, inputs, |before|))
      && (u.regs.stop.triggered ==>
            u.history.trigger == if t.regs.stop.triggered then t.history.trigger else |t.history.samples|)
    ensures TriggeredRight(p, s, inputs)
  {
    hide Run;
    var before := inputs[..|inputs| - 1];
    forall k: nat | k < |before|
      ensures Fires(p, s, inputs, k) == Fires(p, s, before, k) && inputs[..k] == before[..k]
    {
      FiresBefore(p, s, inputs, k);
    }
    hide Fires;
    if Run(p, s, before).regs.stop.triggered {
      var k: nat :|
        FirstFires(p, s, before, k) && Run(p, s, before).history.trigger == |Run(p, s, before[..k]).history.samples|;
      FiresInside(p, s, before, k);
      assert FirstFires(p, s, inputs, k);
    } else if Fires(p, s, inputs, |before|) {
      assert FirstFires(p, s, inputs, |before|);
    } else {
      forall k: nat
        ensures !Fires(p, s, inputs, k)
      {
        if k >= |inputs| {
          FiresOutside(p, s, inputs, k);
        }
      }
    }
  }

  lemma FiresInside(p: Params, s: Scope, inputs: seq<Input>, k: nat)
    requires p.Valid() && s.regs.Sized(p) && Fires(p, s, inputs, k)
    ensures k < |inputs|
  {
  }

  lemma FiresOutside(p: Params, s: Scope, inputs: seq<Input>, k: nat)
    requires p.Valid() && s.regs.Sized(p) && k >= |inputs|
    ensures !Fires(p, s, inputs, k)
  {
  }

  /** In every run the scope triggers on i_trigger, or at once if told to, exactly as soon as a
      sample comes with it and memory is full. */
  lemma {:induction false} TriggersExactly(p: Params, s: Scope, inputs: seq<Input>)
    requires p.Valid() && s.regs.Sized(p) && s.regs.Reset() && Undisturbed(inputs) && |inputs| > 0
    ensures TriggeredRight(p, s, inputs)
    ensures var t := Run(p, s, inputs);
      && t.regs.config.manual == s.regs.config.manual && t.regs.config.disable == s.regs.config.disable
      && (t.regs.Reset() ==> !t.regs.stop.triggered)
  {
    hide Next, NextHistory, Invariant, TriggeredRight;
    var before, i := inputs[..|inputs| - 1], inputs[|inputs| - 1];
    var t := Run(p, s, before);
    if |before| == 0 {
      TriggerMoves(p, t.regs, t.history, i);
      NoneYet(p, s, inputs);
    } else {
      TriggersExactly(p, s, before);
      RunInvariant(p, s, before);
      TriggerMoves(p, t.regs, t.history, i);
      GoesOn(p, t.regs, i);
      RightBefore(p, s, inputs);
    }
  }

  lemma NoneYet(p: Params, s: Scope, inputs: seq<Input>)
    requires p.Valid() && s.regs.Sized(p) && s.regs.Reset() && |inputs| == 1 && !Run(p, s, inputs).regs.stop.triggered
    ensures TriggeredRight(p, s, inputs)
  {
    forall k: nat
      ensures !Fires(p, s, inputs, k)
    {
      if k == 0 {
        assert inputs[..0] == [];
      }
    }
  }

  lemma GoesOn(p: Params, r: Regs, i: Input)
    requires p.Valid() && r.Sized(p) && !Configures(i)
    ensures !r.Reset() ==> !Next(p, r, i).Reset()
  {
  }

  // ---- Reading the recording back -----------------------------------------------------------------

  predicate PartAt(part: seq<nat>, samples: seq<nat>, at: nat) {
    at + |part| <= |samples| && samples[at..at + |part|] == part
  }

  /** A run of consecutive samples. */
  ghost predicate Window(part: seq<nat>, samples: seq<nat>)
  {
    exists at: nat :: PartAt(part, samples, at)
  }

  lemma WindowOfSuffix(part: seq<nat>, samples: seq<nat>, whole: seq<nat>)
    requires Window(part, samples) && Suffix(samples, whole)
    ensures Window(part, whole)
  {
    var at: nat :| PartAt(part, samples, at);
    var from := |whole| - |samples| + at;
    assert whole[from..from + |part|] == whole[|whole| - |samples|..][at..at + |part|];
    assert PartAt(part, whole, from);
  }

  lemma SuffixOfPrefix(part: seq<nat>, whole: seq<nat>, samples: seq<nat>)
    requires Suffix(part, whole) && whole <= samples
    ensures Window(part, samples)
  {
    var at := |whole| - |part|;
    assert samples[at..at + |part|] == whole[at..];
    assert PartAt(part, samples, at);
  }

  /** Memory holds the last of what has been recorded. */
  lemma MemoryPart(p: Params, r: Regs, h: History)
    requires Invariant(p, r, h) && r.store.primed && (h.stale ==> |h.log| > p.depth)
    ensures Suffix(Expand(Oldest(r.store.mem, r.store.waddr)), Expand(Unstale(h, h.log)))
    ensures Expand(Unstale(h, h.log)) <= h.samples
  {
    hide Counting, Stopping, Expand, Leaving, Oldest;
    FullMemory(p.depth, r.store.mem, r.store.waddr, h.log);
    LogIsLeaving(r.enc, h);
    var words, log := Oldest(r.store.mem, r.store.waddr), Unstale(h, h.log);
    var lost := log[..|log| - p.depth];
    assert log == lost + words;
    ExpandSuffix(lost, words);
  }

  /** Once memory has wrapped past the start of the recording, the words in it stand for a run
      of consecutive samples. */
  lemma MemoryIsWindow(p: Params, r: Regs, h: History)
    requires Invariant(p, r, h) && r.store.primed && (h.stale ==> |h.log| > p.depth)
    ensures Window(Expand(Oldest(r.store.mem, r.store.waddr)), h.samples)
  {
    hide Faithful, Counting, Stopping, Armed, Holds, Expand, Oldest, Unstale;
    MemoryPart(p, r, h);
    SuffixOfPrefix(Expand(Oldest(r.store.mem, r.store.waddr)), Expand(Unstale(h, h.log)), h.samples);
  }

  lemma MemoryAlternates(p: Params, r: Regs, h: History)
    requires Invariant(p, r, h) && r.store.primed && (h.stale ==> |h.log| > p.depth)
    ensures Alternating(Oldest(r.store.mem, r.store.waddr))
  {
    hide Counting, Stopping, Expand, Oldest;
    FullMemory(p.depth, r.store.mem, r.store.waddr, h.log);
    var leaving, log := Unstale(h, Leaving(r.enc, h)), Unstale(h, h.log);
    assert leaving[..|log|] == log;
    AlternatingPart(leaving, 0, |log|);
    assert Oldest(r.store.mem, r.store.waddr) == log[|log| - p.depth..];
    AlternatingPart(log, |log| - p.depth, |log|);
  }

  /** By the time the scope has stopped, memory has wrapped past its first word. */
  lemma StoppedForgets(p: Params, r: Regs, h: History)
    requires Invariant(p, r, h) && r.stop.p4
    ensures r.store.primed && |h.log| > p.depth
  {
    hide Faithful, Counting, Holds;
  }

  /** So a stopped scope's memory stands for consecutive samples, whatever was on its way when
      the reset came, and never holds two repeats in a row. */
  lemma StoppedIsWindow(p: Params, r: Regs, h: History)
    requires Invariant(p, r, h) && r.stop.p4
    ensures var words := Oldest(r.store.mem, r.store.waddr);
      |words| > 0 && Window(Expand(words), h.samples) && Alternating(words)
  {
    StoppedForgets(p, r, h);
    MemoryIsWindow(p, r, h);
    MemoryAlternates(p, r, h);
    hide Faithful, Counting, Holds, Expand, Window;
  }

  // ---- Where the recording ends -----------------------------------------------------------------

  /** A write to the control register. */
  predicate Configures(i: Input) {
    i.stb && i.we && !i.addr
  }

  /** The holdoff counts the samples after the trigger.  Two more are taken as samples of their
      own while the stop goes down its pipe, and the recording ends with the first of them. */
  ghost predicate Placed(p: Params, r: Regs, h: History, holdoff: nat)
  {
    var s, e, n := r.stop, r.enc, h.trigger + holdoff;
    && r.config.holdoff == holdoff < p.holdoffLimit && (!s.triggered ==> s.counter == 0)
    && (s.triggered && !s.stopped ==> s.counter <= holdoff && |h.taken| == h.trigger + s.counter)
    && (s.stopped && !s.p0 ==> |h.taken| == n + 1)
    && (s.p0 && !s.p1 ==> |h.taken| == n + 2 && e.imm.Sample?)
    && (s.p1 && !s.p2 ==> |h.taken| == n + 3 && e.lst.Sample? && e.imm.Sample?)
    && (s.p2 ==> |Expand(Unstale(h, Leaving(e, h)))| == n + 2)
    && (s.p2 && !s.p3 ==> |h.taken| == n + 4) && (s.p3 && !s.p4 ==> |h.taken| == n + 5)
    && (s.p4 ==> |h.taken| >= n + 6)
  }

  /** Until the stop reaches the writer. */
  lemma PlacedMoves(p: Params, r: Regs, h: History, i: Input, holdoff: nat)
    requires p.Valid() && r.Sized(p) && !r.Reset() && Stopping(r.stop) && Placed(p, r, h, holdoff) && !Configures(i)
    requires Lagging(r, h) && !Next(p, r, i).stop.p2
    ensures Placed(p, Next(p, r, i), NextHistory(r, h, i), holdoff)
  {
    hide NextStore, NextRead, Leaving, Unstale, Expand;
  }

  /** And after. */
  lemma PlacedEnds(p: Params, r: Regs, h: History, i: Input)
    requires p.Valid() && r.Sized(p) && !r.Reset() && Faithful(r, h) && Stopping(r.stop) && Next(p, r, i).stop.p2
    requires !r.stop.p2 ==> r.enc.imm.Sample?
    ensures var e', h' := Next(p, r, i).enc, NextHistory(r, h, i);
      |Expand(Unstale(h', Leaving(e', h')))|
        == if r.stop.p2 then |Expand(Unstale(h, Leaving(r.enc, h)))| else |h.taken| - 1
  {
    hide NextStore, NextRead, NextConfig, NextEncoder, NextHistory, Leaving, Unstale, Expand, Settled, Words;
    PipeMoves(p, r, i);
    if i.ce {
      WordsMove(p, r, h, i);
    } else {
      WordsIdle(p, r, h, i);
    }
    SameStale(r, h, i);
    WordsAre(r, h);
    ExpandOne(Settled(r.enc, h), r.enc.imm);
  }

  lemma PipeMoves(p: Params, r: Regs, i: Input)
    requires p.Valid() && !r.Reset()
    ensures var s, s' := r.stop, NextStop(p, r, i);
      (s'.p2, s'.p3, s'.p4) == if i.ce then (s.p1, s.p2, s.p3) else (s.p2, s.p3, s.p4)
  {
  }

  lemma SameStale(r: Regs, h: History, i: Input)
    requires !r.Reset()
    ensures NextHistory(r, h, i).stale == h.stale
    ensures forall words :: Unstale(NextHistory(r, h, i), words) == Unstale(h, words)
  {
  }

  lemma PlacedStep(p: Params, r: Regs, h: History, i: Input, holdoff: nat)
    requires Invariant(p, r, h) && !r.Reset() && Placed(p, r, h, holdoff) && !Configures(i)
    ensures Placed(p, Next(p, r, i), NextHistory(r, h, i), holdoff)
  {
    hide NextStore, NextRead, NextEncoder, Leaving, Unstale, Expand, Counting, Holds, Armed, Faithful;
    if !Next(p, r, i).stop.p2 {
      PlacedMoves(p, r, h, i, holdoff);
    } else {
      StoppingStep(p, r, i);
      PipeMoves(p, r, i);
      PlacedEnds(p, r, h, i);
      TriggeredOnce(r, h, i);
    }
  }

  lemma TriggeredOnce(r: Regs, h: History, i: Input)
    requires !r.Reset() && r.stop.triggered
    ensures NextHistory(r, h, i).trigger == h.trigger
  {
  }

  lemma PlacedStarts(p: Params, r: Regs, h: History, i: Input)
    requires p.Valid() && r.Sized(p) && r.Reset() && !Configures(i) && r.config.holdoff < p.holdoffLimit
    ensures Placed(p, Next(p, r, i), NextHistory(r, h, i), r.config.holdoff)
  {
    hide NextStore, NextRead, NextEncoder;
  }

  /** The stop is down its pipe exactly from the sixth sample on. */
  lemma StopsWhen(p: Params, r: Regs, h: History, holdoff: nat)
    requires Invariant(p, r, h) && Placed(p, r, h, holdoff) && r.stop.triggered
    ensures r.stop.p4 <==> |h.samples| >= h.trigger + holdoff + 7
  {
    hide Faithful, Counting, Holds, Armed, Expand;
  }

  /** The control register is left alone. */
  predicate Undisturbed(inputs: seq<Input>) {
    forall k :: 0 <= k < |inputs| ==> !Configures(inputs[k])
  }

  /** In reset, with any holdoff its register can hold. */
  predicate FromReset(p: Params, s: Scope) {
    p.Valid() && s.regs.Sized(p) && s.regs.Reset() && s.regs.config.holdoff < p.holdoffLimit
  }

  lemma {:induction false} RunPlaced(p: Params, s: Scope, inputs: seq<Input>)
    requires FromReset(p, s) && |inputs| > 0 && Undisturbed(inputs)
    ensures var t := Run(p, s, inputs); Placed(p, t.regs, t.history, s.regs.config.holdoff)
  {
    hide Next, NextHistory, Invariant, Placed;
    var before, i := inputs[..|inputs| - 1], inputs[|inputs| - 1];
    var t := Run(p, s, before);
    if |before| == 0 {
      PlacedStarts(p, t.regs, t.history, i);
    } else {
      RunPlaced(p, s, before);
      HoldoffIs(p, t.regs, t.history, s.regs.config.holdoff);
      if t.regs.Reset() {
        PlacedStarts(p, t.regs, t.history, i);
      } else {
        RunInvariant(p, s, before);
        PlacedStep(p, t.regs, t.history, i, s.regs.config.holdoff);
      }
    }
  }

  lemma HoldoffIs(p: Params, r: Regs, h: History, holdoff: nat)
    requires Placed(p, r, h, holdoff)
    ensures r.config.holdoff == holdoff < p.holdoffLimit
  {
  }

  /** Consecutive samples up to the one numbered `last`. */
  predicate EndsAt(part: seq<nat>, samples: seq<nat>, last: int) {
    |part| - 1 <= last < |samples| && part == samples[last + 1 - |part|..last + 1]
  }

  lemma SuffixEndsAt(part: seq<nat>, whole: seq<nat>, samples: seq<nat>)
    requires Suffix(part, whole) && whole <= samples
    ensures EndsAt(part, samples, |whole| - 1)
  {
    assert samples[|whole| - |part|..|whole|] == whole[|whole| - |part|..];
  }

  lemma StoppedEndsAt(p: Params, r: Regs, h: History, holdoff: nat)
    requires Invariant(p, r, h) && r.stop.p4 && Placed(p, r, h, holdoff)
    ensures EndsAt(Expand(Oldest(r.store.mem, r.store.waddr)), h.samples, h.trigger + holdoff + 1)
  {
    hide Expand, Oldest, EndsAt, Unstale;
    StoppedForgets(p, r, h);
    MemoryPart(p, r, h);
    AllWritten(p, r, h, holdoff);
    hide Invariant, Placed;
    SuffixEndsAt(Expand(Oldest(r.store.mem, r.store.waddr)), Expand(Unstale(h, h.log)), h.samples);
  }

  lemma AllWritten(p: Params, r: Regs, h: History, holdoff: nat)
    requires Invariant(p, r, h) && r.stop.p4 && Placed(p, r, h, holdoff)
    ensures |Expand(Unstale(h, h.log))| == h.trigger + holdoff + 2
  {
    hide Counting, Expand, Holds, Armed, Faithful;
    assert Leaving(r.enc, h) == h.log;
  }

  /** In every run, a scope that has triggered has stopped exactly from the sixth sample after the
      holdoff on, and its newest sample is the one `holdoff` + 1 after the sample that came with
      the trigger: one more than the plain scope keeps. */
  lemma StopsExactly(p: Params, s: Scope, inputs: seq<Input>)
    requires FromReset(p, s) && |inputs| > 0 && Undisturbed(inputs) && Run(p, s, inputs).regs.stop.triggered
    ensures var t := Run(p, s, inputs); var newest := t.history.trigger + s.regs.config.holdoff + 1;
      && (t.regs.stop.p4 <==> |t.history.samples| >= newest + 6)
      && (t.regs.stop.p4 ==> EndsAt(Expand(Oldest(t.regs.store.mem, t.regs.store.waddr)), t.history.samples, newest))
  {
    hide Run, Invariant, Placed, EndsAt, Oldest, Expand;
    RunInvariant(p, s, inputs);
    RunPlaced(p, s, inputs);
    var t := Run(p, s, inputs);
    StopsWhen(p, t.regs, t.history, s.regs.config.holdoff);
    if t.regs.stop.p4 {
      StoppedEndsAt(p, t.regs, t.history, s.regs.config.holdoff);
    }
  }

  lemma StoppedTriggered(p: Params, r: Regs, h: History)
    requires Invariant(p, r, h) && r.stop.p4
    ensures r.stop.triggered
  {
    hide Faithful, Counting, Holds, Armed;
  }

  /** While the scope stays stopped the recording stays put, and the data port gives it back
      oldest word first. */
  lemma ReadoutStep(p: Params, r: Regs, h: History, i: Input, seen: Reads<Word>)
    requires Invariant(p, r, h) && r.stop.p4 && !r.Reset()
    requires Walking(p.depth, r.reader, r.store.mem, r.store.waddr, seen)
    requires !(i.stb && i.addr && i.we) && (seen.one ==> i.addr)
    requires i.stb && i.addr ==> seen.Count() < p.depth
    ensures var r' := Next(p, r, i);
      && r'.stop.p4 && r'.store == r.store && NextHistory(r, h, i).log == h.log
      && Walking(p.depth, r'.reader, r'.store.mem, r'.store.waddr, NextReads(r.reader, seen, i.stb && i.addr))
  {
    hide NextEncoder, NextReader, Walking, Faithful, Counting, NextReads;
    WalkingStep(p.depth, r.reader, r.store.mem, r.store.waddr, Sample(r.enc.qd), i.stb && i.addr,
                if !i.addr then SelectControl else SelectMemory, seen);
  }

  /** A read is answered from memory only if the bus still addresses the data register one clock
      after the strobe; otherwise the control word comes back. */
  lemma ReadNeedsAddressHeld(p: Params, r: Regs, h: History, i: Input, j: Input)
    requires Invariant(p, r, h) && r.stop.p4 && !r.Reset()
    requires i.stb && i.addr && !i.we && r.reader.thisAddr == Wrap(p.depth, r.store.waddr + r.reader.raddr)
    ensures var t := Next(p, Next(p, r, i), j);
      t.reader.out == if j.addr then Memory(Oldest(r.store.mem, r.store.waddr)[r.reader.raddr]) else Control
  {
    hide Faithful, Counting, NextEncoder;
    assert NextStop(p, r, i).p4;
    assert Oldest(r.store.mem, r.store.waddr)[r.reader.raddr] == r.store.mem[r.reader.thisAddr];
  }

  // ---- From the reset to the host -------------------------------------------------------------------

  predicate Strobe(i: Input) {
    i.stb && i.addr && !i.we
  }

  /** The scope is left running: no reset, and no write to the data register. */
  predicate Leaves(i: Input) {
    i.stb && i.we ==> !i.addr && i.bus / 0x8000_0000 % 2 == 1
  }

  ghost predicate Reading(p: Params, r: Regs, h: History, seen: Reads<Word>)
  {
    && p.Valid() && r.Sized(p) && Invariant(p, r, h) && r.stop.p4 && !r.Reset()
    && Walking(p.depth, r.reader, r.store.mem, r.store.waddr, seen)
  }

  lemma KeepsRunning(p: Params, r: Regs, i: Input)
    requires p.Valid() && r.Sized(p) && !r.Reset() && Leaves(i)
    ensures !Next(p, r, i).Reset()
  {
  }

  lemma ReadingStep(p: Params, r: Regs, h: History, i: Input, seen: Reads<Word>)
    requires Reading(p, r, h, seen) && Leaves(i) && (seen.one ==> i.addr) && (Strobe(i) ==> seen.Count() < p.depth)
    ensures var r', h' := Next(p, r, i), NextHistory(r, h, i);
      Reading(p, r', h', NextReads(r.reader, seen, Strobe(i))) && r'.store == r.store
  {
    hide Next, NextHistory, Faithful, Counting, Holds, Armed, Walking, NextReads;
    InvariantStep(p, r, h, i);
    KeepsRunning(p, r, i);
    ReadoutStep(p, r, h, i, seen);
  }

  datatype Readout = Readout(scope: Scope, seen: Reads<Word>)

  function RunReads(p: Params, s: Readout, inputs: seq<Input>): (t: Readout)
    requires p.Valid() && s.scope.regs.Sized(p)
    ensures t.scope.regs.Sized(p)
  {
    if |inputs| == 0 then s
    else
      var t, i := RunReads(p, s, inputs[..|inputs| - 1]), inputs[|inputs| - 1];
      Readout(Scope(Next(p, t.scope.regs, i), NextHistory(t.scope.regs, t.scope.history, i)),
              NextReads(t.scope.regs.reader, t.seen, Strobe(i)))
  }

  function Strobes(inputs: seq<Input>): nat {
    if |inputs| == 0 then 0
    else Strobes(inputs[..|inputs| - 1]) + (if Strobe(inputs[|inputs| - 1]) then 1 else 0)
  }

  /** What the host has to keep to while it reads: the address is held for a clock after each
      strobe, and there are no more reads than words. */
  predicate Patient(p: Params, inputs: seq<Input>) {
    && Strobes(inputs) <= p.depth
    && (forall k :: 0 <= k < |inputs| ==> Leaves(inputs[k]))
    && (forall k :: 0 < k < |inputs| && Strobe(inputs[k - 1]) ==> inputs[k].addr)
  }

  lemma PatientBefore(p: Params, inputs: seq<Input>)
    requires Patient(p, inputs) && |inputs| > 0
    ensures Patient(p, inputs[..|inputs| - 1])
  {
    var before := inputs[..|inputs| - 1];
    forall k | 0 < k < |before| && Strobe(before[k - 1])
      ensures before[k].addr
    {
      assert Strobe(inputs[k - 1]);
    }
  }

  lemma {:induction false} RunReading(p: Params, s: Readout, inputs: seq<Input>)
    requires Reading(p, s.scope.regs, s.scope.history, s.seen) && s.seen == Reads([], false, false)
    requires Patient(p, inputs)
    ensures var t := RunReads(p, s, inputs);
      && Reading(p, t.scope.regs, t.scope.history, t.seen) && t.scope.regs.store == s.scope.regs.store
      && t.seen.Count() == Strobes(inputs) && t.seen.one == (|inputs| > 0 && Strobe(inputs[|inputs| - 1]))
  {
    hide Next, NextHistory, Invariant, Walking;
    if |inputs| == 0 {
    } else {
      var before, i := inputs[..|inputs| - 1], inputs[|inputs| - 1];
      PatientBefore(p, inputs);
      RunReading(p, s, before);
      var t := RunReads(p, s, before);
      ReadingStep(p, t.scope.regs, t.scope.history, i, t.seen);
    }
  }

  /** The port has given `got`, the oldest words first; what is missing is still on its way. */
  ghost predicate Returned(seen: Reads<Word>, words: seq<Word>, strobes: nat)
  {
    && seen.Count() == strobes && |seen.got| <= |words|
    && forall n :: 0 <= n < |seen.got| ==> seen.got[n] == Memory(words[n])
  }

  lemma ReadsOldestFirst(p: Params, s: Readout, inputs: seq<Input>)
    requires Reading(p, s.scope.regs, s.scope.history, s.seen) && s.seen == Reads([], false, false)
    requires Patient(p, inputs)
    ensures Returned(RunReads(p, s, inputs).seen, Oldest(s.scope.regs.store.mem, s.scope.regs.store.waddr),
                     Strobes(inputs))
  {
    hide RunReads, Oldest, Invariant, Patient;
    RunReading(p, s, inputs);
  }

  lemma {:induction false} ReadsPeel(p: Params, s: Readout, i: Input, rest: seq<Input>)
    requires p.Valid() && s.scope.regs.Sized(p)
    ensures RunReads(p, s, [i] + rest) == RunReads(p, RunReads(p, s, [i]), rest)
    ensures Strobes([i] + rest) == Strobes([i]) + Strobes(rest)
  {
    hide Next, NextHistory;
    if |rest| == 0 {
      assert [i] + rest == [i];
    } else {
      var front, last := rest[..|rest| - 1], rest[|rest| - 1];
      ReadsPeel(p, s, i, front);
      assert ([i] + rest)[..|rest|] == [i] + front;
    }
  }

  lemma ReadsOne(p: Params, s: Readout, i: Input)
    requires p.Valid() && s.scope.regs.Sized(p)
    ensures RunReads(p, s, [i]) ==
      Readout(Scope(Next(p, s.scope.regs, i), NextHistory(s.scope.regs, s.scope.history, i)),
              NextReads(s.scope.regs.reader, s.seen, Strobe(i)))
    ensures Strobes([i]) == if Strobe(i) then 1 else 0
  {
    assert [i][..0] == [];
  }

  /** When the stop comes out of its pipe the write address has already come to rest; the reader
      is ready at once exactly if no read came on that clock. */
  lemma ReadyAtOnceIff(p: Params, r: Regs, h: History, last: Input)
    requires Invariant(p, r, h) && p.depth >= 2 && Leaves(last)
    requires !r.stop.p4 && Next(p, r, last).stop.p4
    ensures var t := Next(p, r, last);
      && !t.Reset() && t.reader.raddr == 0
      && (t.reader.thisAddr == t.store.waddr <==> !Strobe(last))
  {
    hide Faithful, Counting, Holds, NextEncoder, Armed;
  }

  lemma ReadingStarts(p: Params, r: Regs, h: History, i: Input)
    requires Invariant(p, r, h) && r.stop.p4 && !r.Reset() && r.reader.raddr == 0 && Leaves(i) && !Strobe(i)
    ensures var r' := Next(p, r, i);
      Reading(p, r', NextHistory(r, h, i), Reads([], false, false)) && r'.store == r.store
  {
    InvariantStep(p, r, h, i);
    KeepsRunning(p, r, i);
    StaysStopped(p, r, h, i);
    hide Faithful, Counting, Holds, NextEncoder, NextConfig, Armed;
    var r' := Next(p, r, i);
    WalkingStarts(p.depth, r'.reader, r'.store.mem, r'.store.waddr);
  }

  lemma StaysStopped(p: Params, r: Regs, h: History, i: Input)
    requires Invariant(p, r, h) && r.stop.p4 && !r.Reset()
    ensures Next(p, r, i).stop.p4 && Next(p, r, i).store == r.store
  {
    hide Faithful, Counting, Holds, NextEncoder, NextRead, NextConfig, Armed;
  }

  lemma ReadsAfterStop(p: Params, t: Scope, later: seq<Input>)
    requires p.Valid() && t.regs.Sized(p) && Invariant(p, t.regs, t.history)
    requires t.regs.stop.p4 && !t.regs.Reset() && t.regs.reader.raddr == 0 && Patient(p, later)
    requires |later| > 0 && Strobe(later[0]) ==> t.regs.reader.thisAddr == t.regs.store.waddr
    ensures Returned(RunReads(p, Readout(t, Reads([], false, false)), later).seen,
                     Oldest(t.regs.store.mem, t.regs.store.waddr), Strobes(later))
  {
    hide RunReads, Next, NextHistory, Oldest, Faithful, Counting, Holds, Armed, Walking, Returned;
    var ro := Readout(t, Reads([], false, false));
    if |later| == 0 {
      NoneReturned(p, ro, Oldest(t.regs.store.mem, t.regs.store.waddr));
    } else if Strobe(later[0]) {
      WalkingStarts(p.depth, t.regs.reader, t.regs.store.mem, t.regs.store.waddr);
      ReadsOldestFirst(p, ro, later);
    } else {
      var i, rest := later[0], later[1..];
      assert later == [i] + rest;
      ReadsPeel(p, ro, i, rest);
      ReadsOne(p, ro, i);
      ReadingStarts(p, t.regs, t.history, i);
      PatientRest(p, later);
      ReadsOldestFirst(p, RunReads(p, ro, [i]), rest);
    }
  }

  lemma PatientRest(p: Params, later: seq<Input>)
    requires |later| > 0 && Patient(p, later) && Strobes(later) == Strobes([later[0]]) + Strobes(later[1..])
    ensures Patient(p, later[1..])
  {
    var rest := later[1..];
    forall k | 0 < k < |rest| && Strobe(rest[k - 1])
      ensures rest[k].addr
    {
      assert Strobe(later[k]);
    }
  }

  lemma NoneReturned(p: Params, s: Readout, words: seq<Word>)
    requires p.Valid() && s.scope.regs.Sized(p) && s.seen == Reads([], false, false)
    ensures Returned(RunReads(p, s, []).seen, words, Strobes([]))
  {
  }

  /** A capture: a run from a reset to the clock on which the stop comes out of its pipe. */
  predicate Captures(p: Params, s: Scope, inputs: seq<Input>) {
    && p.Valid() && p.depth >= 2 && s.regs.Sized(p) && s.regs.Reset() && |inputs| > 1
    && Leaves(inputs[|inputs| - 1])
    && !Run(p, s, inputs[..|inputs| - 1]).regs.stop.p4 && Run(p, s, inputs).regs.stop.p4
  }

  lemma CaptureEnds(p: Params, s: Scope, inputs: seq<Input>)
    requires Captures(p, s, inputs)
    ensures var t := Run(p, s, inputs);
      && Invariant(p, t.regs, t.history) && t.regs.stop.p4 && !t.regs.Reset() && t.regs.reader.raddr == 0
      && (t.regs.reader.thisAddr == t.regs.store.waddr <==> !Strobe(inputs[|inputs| - 1]))
  {
    hide Next, NextHistory, Invariant;
    var before := inputs[..|inputs| - 1];
    RunInvariant(p, s, before);
    RunInvariant(p, s, inputs);
    ReadyAtOnceIff(p, Run(p, s, before).regs, Run(p, s, before).history, inputs[|inputs| - 1]);
  }

  /** From a reset, through the stop, to the bus: the port returns a memory that stands for
      consecutive samples of the data that came in, up to the one `holdoff` + 1 after the trigger
      if the control register was left alone.  The reads may be spaced in any way and begin at
      once if the reader is ready, else one clock later. */
  lemma ReadsBack(p: Params, s: Scope, inputs: seq<Input>, later: seq<Input>)
    requires Captures(p, s, inputs) && Patient(p, later)
    requires |later| > 0 && Strobe(later[0]) ==> !Strobe(inputs[|inputs| - 1])
    ensures var t := Run(p, s, inputs);
      var words := Oldest(t.regs.store.mem, t.regs.store.waddr);
      && Returned(RunReads(p, Readout(t, Reads([], false, false)), later).seen, words, Strobes(later))
      && |words| == p.depth && Alternating(words) && Window(Expand(words), Incoming(s, inputs))
      && (Undisturbed(inputs) && s.regs.config.holdoff < p.holdoffLimit ==>
            EndsAt(Expand(words), t.history.samples, t.history.trigger + s.regs.config.holdoff + 1))
  {
    hide Run, RunReads, Invariant, Patient, Returned, Oldest, Expand, Window, Incoming, EndsAt, Undisturbed;
    CaptureEnds(p, s, inputs);
    var t := Run(p, s, inputs);
    ReadsAfterStop(p, t, later);
    StoppedIsWindow(p, t.regs, t.history);
    SamplesComeIn(p, s, inputs);
    WindowOfSuffix(Expand(Oldest(t.regs.store.mem, t.regs.store.waddr)), t.history.samples, Incoming(s, inputs));
    MemoryDepth(p, t.regs, t.history);
    if Undisturbed(inputs) && s.regs.config.holdoff < p.holdoffLimit {
      StoppedTriggered(p, t.regs, t.history);
      StopsExactly(p, s, inputs);
    }
  }

  lemma MemoryDepth(p: Params, r: Regs, h: History)
    requires Invariant(p, r, h)
    ensures |Oldest(r.store.mem, r.store.waddr)| == p.depth
  {
  }

  // ---- The registers --------------------------------------------------------------------------------

  class Core {
    const p: Params
    var config: Config
    var stop: Stop
    var enc: Encoder
    const mem: array<Word>
    var waddr: nat
    var primed: bool
    var reader: Reader<Word>

    function Registers(): Regs
      reads this, mem
    {
      Regs(config, stop, enc, Store(mem[..], waddr, primed), reader)
    }

    ghost predicate Valid()
      reads this, mem
    {
      p.Valid() && Registers().Sized(p)
    }

    /** Power-on: in reset. */
    constructor (p: Params)
      requires p.Valid()
      ensures this.p == p && fresh(mem) && Valid() && Registers().Reset()
    {
      this.p := p;
      config := Config(false, false, false, 0);
      stop := Stop(false, 0, false, false, false, false, false, false);
      enc := Encoder(false, false, false, false, 0, 0, Repeat(0), Repeat(0), false, Sample(0));
      mem := new Word[p.depth](_ => Sample(0));
      waddr, primed, reader := 0, false, Reader(0, 0, Sample(0), Control);
    }

    method ConfigBlock(i: Input) returns (running': bool, manual': bool, disable': bool, holdoff': nat)
      requires Valid()
      ensures Config(running', manual', disable', holdoff') == NextConfig(p, Registers().config, i)
    {
      running', manual', disable', holdoff' := config.running, config.manual, config.disable, config.holdoff;
      if i.stb && !i.addr {
        if i.we {
          running' := i.bus / 0x8000_0000 % 2 == 1;
          manual' := i.bus / 0x800_0000 % 2 == 1;
          disable' := i.bus / 0x400_0000 % 2 == 1;
          holdoff' := i.bus % p.holdoffLimit;
        }
      } else if !config.running {
        running' := true;
      }
    }

    method StopBlock(i: Input) returns (triggered': bool, counter': nat, stopped': bool, pipe': Stop)
      requires Valid()
      ensures pipe'.(triggered := triggered', counter := counter', stopped := stopped') == NextStop(p, Registers(), i)
    {
      triggered', counter', stopped', pipe' := stop.triggered, stop.counter, stop.stopped, stop;
      if !config.running {
        triggered', counter' := false, 0;
        pipe' := stop.(p0 := false, p1 := false, p2 := false, p3 := false, p4 := false);
      } else if i.ce {
        if primed && ((i.trigger && !config.disable) || config.manual) {
          triggered' := true;
        }
        if stop.triggered && !stop.stopped {
          counter' := if stop.counter + 1 == p.holdoffLimit then 0 else stop.counter + 1;
        }
        pipe' := stop.(p0 := stop.stopped, p1 := stop.p0, p2 := stop.p1, p3 := stop.p2, p4 := stop.p3);
      }
      if !stop.triggered || !config.running {
        stopped' := false;
      } else if i.ce && !stop.stopped {
        stopped' := stop.counter >= config.holdoff;
      }
    }

    method CountBlock(i: Input) returns (force': bool, inhibit': bool, timeout': bool, newData': bool, ck': nat)
      requires Valid()
      ensures var e := NextEncoder(p, Registers(), i);
        force' == e.force && inhibit' == e.inhibit && timeout' == e.timeout && newData' == e.newData && ck' == e.ck
    {
      force', inhibit', timeout', newData', ck' := enc.force, enc.inhibit, enc.timeout, enc.newData, enc.ck;
      if !config.running {
        force', inhibit', timeout', newData', ck' := true, false, true, true, 0;
      } else if i.ce {
        var trigger := primed && ((i.trigger && !config.disable) || config.manual);
        inhibit' := enc.force;
        if enc.timeout && !enc.force && !enc.inhibit {
          force' := true;
        } else {
          force' := (trigger && !stop.triggered) || !primed;
        }
        if enc.force || enc.newData || stop.stopped {
          ck' := 0;
        } else {
          ck' := if enc.ck + 1 == STEP_LIMIT then 0 else enc.ck + 1;
        }
        timeout' := enc.ck >= p.maxStep - 1;
        newData' := i.data != enc.qd;
      }
    }

    method EncodeBlock(i: Input) returns (qd': nat, imm': Word, lst': Word, recordCe': bool, rData': Word)
      requires Valid()
      ensures var e := NextEncoder(p, Registers(), i);
        qd' == e.qd && imm' == e.imm && lst' == e.lst && recordCe' == e.recordCe && rData' == e.rData
    {
      qd', imm', lst' := enc.qd, enc.imm, enc.lst;
      if i.ce {
        qd' := i.data;
      }
      if !config.running {
        imm', lst' := Repeat(0), Repeat(0);
      } else if i.ce {
        imm' := if enc.newData || enc.force || stop.stopped then Sample(enc.qd) else Repeat(enc.ck);
        lst' := enc.imm;
      }
      recordCe' := i.ce && (enc.lst.Sample? || enc.imm.Sample?) && !stop.p2;
      rData' := if enc.lst.Sample? || enc.imm.Sample? then enc.lst else Sample(enc.qd);
    }

    method StoreBlock() returns (waddr': nat, primed': bool)
      requires Valid()
      modifies mem
      ensures Store(mem[..], waddr', primed') == NextStore(p, old(Registers()))
    {
      waddr', primed' := waddr, primed;
      if !config.running {
        waddr', primed' := 0, false;
      } else if enc.recordCe {
        waddr' := if waddr + 1 == p.depth then 0 else waddr + 1;
        primed' := primed || waddr + 1 == p.depth;
      }
      if enc.recordCe {
        mem[waddr] := enc.rData;
      }
    }

    method Encode(i: Input) returns (e: Encoder)
      requires Valid()
      ensures e == NextEncoder(p, Registers(), i)
    {
      var force', inhibit', timeout', newData', ck' := CountBlock(i);
      var qd', imm', lst', recordCe', rData' := EncodeBlock(i);
      e := Encoder(force', inhibit', timeout', newData', ck', qd', imm', lst', recordCe', rData');
    }

    method Configure(i: Input) returns (c: Config, s: Stop)
      requires Valid()
      ensures c == NextConfig(p, Registers().config, i) && s == NextStop(p, Registers(), i)
    {
      var running', manual', disable', holdoff' := ConfigBlock(i);
      var triggered', counter', stopped', pipe' := StopBlock(i);
      c := Config(running', manual', disable', holdoff');
      s := pipe'.(triggered := triggered', counter := counter', stopped := stopped');
    }

    method Clock(i: Input)
      requires Valid()
      modifies this, mem
      ensures Valid() && Registers() == Next(p, old(Registers()), i)
    {
      hide NextConfig, NextStop, NextEncoder, NextStore, NextRead;
      ghost var r := Registers();
      var c, s := Configure(i);
      var e := Encode(i);
      var rd := NextRead(p, Registers(), i);
      var waddr', primed' := StoreBlock();
      config, stop, enc, waddr, primed, reader := c, s, e, waddr', primed', rd;
      assert Registers() == Next(p, r, i);
    }
  }
}
