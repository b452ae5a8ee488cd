/** The power-up script engine of rtl/genuctrl.v, with delays enabled (LGDELAY > 0). */
module GenUCtrl {

  /** A script word: a command, or a delay of `count` clocks more than one. */
  datatype Word = Command(cmd: nat) | Delay(count: nat)

  /** 2^LGNCMDS words and OPT_REPEAT. */
  datatype Script = Script(words: seq<Word>, repeats: bool) {
    predicate Valid() {
      |words| >= 2
    }

    /** The address after `a`. */
    function Advance(a: nat): (b: nat)
      requires Valid() && a < |words|
      ensures b < |words|
    {
      if a + 1 < |words| then a + 1 else if repeats then 0 else a
    }
  }

  function DelayOf(w: Word): nat {
    if w.Delay? then w.count else 0
  }

  datatype Regs = Regs(step: bool, count: nat, addr: nat, cmd: Word, out: nat)

  function Next(s: Script, limit: nat, r: Regs, reset: bool): (r': Regs)
    requires s.Valid() && r.addr < |s.words| && 0 < limit
    ensures r'.addr < |s.words|
  {
    var first := s.words[0];
    Regs(
      step := if reset then DelayOf(first) == 0 else if r.step then DelayOf(r.cmd) == 0 else r.count == 1,
      count :=
        if reset then DelayOf(first)
        else if r.step then DelayOf(r.cmd)
        else if r.count == 0 then limit - 1
        else r.count - 1,
      addr := if reset then 0 else if r.step then s.Advance(r.addr) else r.addr,
      cmd := if reset then first else if r.step then s.words[r.addr] else r.cmd,
      out :=
        if reset && first.Command? then first.cmd
        else if r.step && r.cmd.Command? then r.cmd.cmd
        else r.out)
  }

  // ---- What the script means ------------------------------------------------------------------

  /** A direct interpreter: the active word, the clocks it has left after this one, and the
      output. */
  datatype Player = Player(active: nat, left: nat, out: nat)

  function Play(s: Script, p: Player): (q: Player)
    requires s.Valid() && p.active < |s.words|
    ensures q.active < |s.words|
  {
    if p.left > 0 then p.(left := p.left - 1)
    else
      var a := s.Advance(p.active);
      match s.words[a]
      case Command(cmd) => Player(a, 0, cmd)
      case Delay(count) => Player(a, count, p.out)
  }

  /** The fetch pipeline while it fills, which the first word waits out, and ever after. */
  predicate Plays(s: Script, r: Regs, p: Player)
    requires s.Valid() && p.active < |s.words|
  {
    && r.out == p.out
    && if p.active == 0 && p.left > 0 then
         p.left <= 2 && r.step && r.count == 0 && r.cmd == s.words[0] && r.addr == 2 - p.left
       else
         && r.step == (p.left == 0) && r.count == p.left
         && r.cmd == s.words[s.Advance(p.active)] && r.addr == s.Advance(s.Advance(p.active))
  }

  /** The pipeline refines the interpreter, clock by clock. */
  lemma PlaysStep(s: Script, limit: nat, r: Regs, p: Player)
    requires s.Valid() && 0 < limit && r.addr < |s.words| && p.active < |s.words|
    requires s.words[0].Command? && Plays(s, r, p) && (p.active == 0 ==> p.out == s.words[0].cmd)
    ensures Plays(s, Next(s, limit, r, false), Play(s, p))
    ensures Play(s, p).active == 0 ==> Play(s, p).out == s.words[0].cmd
  {
  }

  /** A reset, from any state, starts the script; its first word lasts two clocks more. */
  lemma ResetPlays(s: Script, limit: nat, r: Regs)
    requires s.Valid() && 0 < limit && r.addr < |s.words| && s.words[0].Command?
    ensures Plays(s, Next(s, limit, r, true), Player(0, 2, s.words[0].cmd))
  {
  }

  // ---- Every clock of every run ----------------------------------------------------------------

  /** The address of the k-th word to become active. */
  function Nth(s: Script, k: nat): (a: nat)
    requires s.Valid()
    ensures a < |s.words|
  {
    if k == 0 then 0 else s.Advance(Nth(s, k - 1))
  }

  /** In order, round and round or stuck at the last. */
  lemma {:induction false} NthIs(s: Script, k: nat)
    requires s.Valid()
    ensures k < |s.words| ==> Nth(s, k) == k
    ensures k >= |s.words| ==> Nth(s, k) == if s.repeats then Nth(s, k - |s.words|) else |s.words| - 1
  {
    if k == 0 {
    } else {
      NthIs(s, k - 1);
    }
  }

  /** How long the k-th word is active. */
  function Lasts(s: Script, k: nat): nat
    requires s.Valid()
  {
    1 + DelayOf(s.words[Nth(s, k)]) + (if k == 0 then 2 else 0)
  }

  /** Clocks from the reset until the k-th word becomes active. */
  function Begins(s: Script, k: nat): nat
    requires s.Valid()
  {
    if k == 0 then 0 else Begins(s, k - 1) + Lasts(s, k - 1)
  }

  /** The latest command up to the k-th word. */
  function Shown(s: Script, k: nat): nat
    requires s.Valid()
  {
    match s.words[Nth(s, k)]
    case Command(cmd) => cmd
    case Delay(_) => if k == 0 then 0 else Shown(s, k - 1)
  }

  function After(s: Script, limit: nat, r: Regs, n: nat): (t: Regs)
    requires s.Valid() && r.addr < |s.words| && 0 < limit
    ensures t.addr < |s.words|
  {
    if n == 0 then Next(s, limit, r, true) else Next(s, limit, After(s, limit, r, n - 1), false)
  }

  /** Where the interpreter stands `n` clocks into the k-th word. */
  function Into(s: Script, k: nat, n: nat): Player
    requires s.Valid() && n < Lasts(s, k)
  {
    Player(Nth(s, k), Lasts(s, k) - 1 - n, Shown(s, k))
  }

  lemma IntoStep(s: Script, k: nat, n: nat)
    requires s.Valid() && s.words[0].Command? && n < Lasts(s, k)
    ensures Play(s, Into(s, k, n)) == if n + 1 < Lasts(s, k) then Into(s, k, n + 1) else Into(s, k + 1, 0)
    ensures Nth(s, k) == 0 ==> Shown(s, k) == s.words[0].cmd
  {
  }

  lemma {:induction false} PlaysAll(s: Script, limit: nat, r: Regs, k: nat, n: nat)
    requires s.Valid() && 0 < limit && r.addr < |s.words| && s.words[0].Command? && n < Lasts(s, k)
    ensures Plays(s, After(s, limit, r, Begins(s, k) + n), Into(s, k, n))
    decreases k, n
  {
    hide Next, Play, Plays;
    if k == 0 && n == 0 {
      ResetPlays(s, limit, r);
    } else {
      var k', n' := if n == 0 then k - 1 else k, if n == 0 then Lasts(s, k - 1) - 1 else n - 1;
      PlaysAll(s, limit, r, k', n');
      IntoStep(s, k', n');
      PlaysStep(s, limit, After(s, limit, r, Begins(s, k') + n'), Into(s, k', n'));
    }
  }

  /** From a reset on, o_cmd shows the latest command for as long as the k-th word is active: one
      clock for a command, one more than its count for a delay, and two more still for the very
      first word. */
  lemma ShowsScript(s: Script, limit: nat, r: Regs, k: nat, n: nat)
    requires s.Valid() && 0 < limit && r.addr < |s.words| && s.words[0].Command? && n < Lasts(s, k)
    ensures After(s, limit, r, Begins(s, k) + n).out == Shown(s, k)
  {
    hide After, Begins, Lasts, Shown;
    PlaysAll(s, limit, r, k, n);
  }

  // ---- The registers ------------------------------------------------------------------------------

  class Core {
    const s: Script
    const limit: nat
    var step: bool
    var count: nat
    var addr: nat
    var cmd: Word
    var out: nat

    function Registers(): Regs
      reads this
    {
      Regs(step, count, addr, cmd, out)
    }

    ghost predicate Valid()
      reads this
    {
      s.Valid() && 0 < limit && addr < |s.words|
    }

    /** getcommand() */
    function GetCommand(a: nat): Word
      requires s.Valid() && a < |s.words|
    {
      s.words[a]
    }

    /** `limit` is 2^LGDELAY. */
    constructor (s: Script, limit: nat)
      requires s.Valid() && 0 < limit && s.words[0].Command?
      ensures this.s == s && this.limit == limit && Valid()
      ensures Plays(s, Registers(), Player(0, 2, s.words[0].cmd))
    {
      this.s, this.limit := s, limit;
      step, count, addr, cmd, out := true, 0, 0, s.words[0], s.words[0].cmd;
    }

    method Clock(reset: bool)
      requires Valid()
      modifies this
      ensures Valid() && Registers() == Next(s, limit, old(Registers()), reset)
    {
      var first := s.words[0];
      var step', count', addr', cmd', out' := count == 1, if count == 0 then limit - 1 else count - 1, addr, cmd, out;
      if reset {
        step', count', addr', cmd' := DelayOf(first) == 0, DelayOf(first), 0, first;
      } else if step {
        step', count', addr', cmd' := !cmd.Delay? || cmd.count == 0, DelayOf(cmd), s.Advance(addr), GetCommand(addr);
      }
      if reset && !first.Delay? {
        out' := first.cmd;
      } else if step && !cmd.Delay? {
        out' := cmd.cmd;
      }
      step, count, addr, cmd, out := step', count', addr', cmd', out';
    }
  }
}
