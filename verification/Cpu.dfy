/**
  The CPU's register file: two banks and one pending load, which together make
  a load readable two instructions after it was issued. Everything else an
  instruction touches (memory, counters, coprocessors) is a world `W`, and what
  the next instruction does is any function of it.
 */
module Cpu {
  import opened Words

  type Register = r: int | 0 <= r < 32
  type Bank = s: seq<U32> | |s| == 32 witness seq(32, _ => 0)

  /** What one instruction does to the registers. */
  datatype Effect =
    | Nothing
    | Sets(register: Register, value: U32)
    | Loads(register: Register, value: U32)

  /**
    One step: an instruction that was never run (a refused fetch, or an interrupt
    taken in its place), one that computes from the registers it reads, or LWL
    or LWR, which also see what their target is about to hold. A run gives the
    world it leaves behind, faults and all.
   */
  datatype Turn<W> =
    | Refused(after: W)
    | Ordinary(run: Bank -> (Effect, W))
    | Merging(target: Register, merge: (Bank, U32) -> (U32, W))

  // ---- the machine ----

  datatype Pipe = Pipe(regs: Bank, outRegs: Bank, loadReg: Register, loadValue: U32)

  function Cleared(): Pipe { Pipe(seq(32, _ => 0), seq(32, _ => 0), 0, 0) }

  function WithReg(bank: Bank, r: Register, value: U32): Bank { bank[r := value][0 := 0] }

  /** The pending load lands, and nothing is pending. */
  function Landed(p: Pipe): Bank { WithReg(p.outRegs, p.loadReg, p.loadValue) }

  function Executed(p: Pipe, effect: Effect): Pipe {
    var out := Landed(p);
    match effect
    case Nothing => Pipe(out, out, 0, 0)
    case Sets(r, value) => var next := WithReg(out, r, value); Pipe(next, next, 0, 0)
    case Loads(r, value) =>
      var next := if r != 0 && r == p.loadReg then WithReg(out, r, p.outRegs[r]) else out;
      Pipe(next, next, r, value)
  }

  function EffectOf<W>(turn: Turn<W>, read: Bank, held: Register -> U32): (result: (Effect, W)) {
    match turn
    case Refused(after) => (Nothing, after)
    case Ordinary(run) => run(read)
    case Merging(target, merge) =>
      var (value, after) := merge(read, held(target));
      (Loads(target, value), after)
  }

  function Step<W>(p: Pipe, turn: Turn<W>): (Pipe, W) {
    var (effect, after) := EffectOf(turn, p.regs, (r: Register) => Landed(p)[r]);
    (Executed(p, effect), after)
  }

  function Run<W>(decode: W -> Turn<W>, world: W, n: nat): (Pipe, W) {
    if n == 0 then (Cleared(), world)
    else
      var (p, before) := Run(decode, world, n - 1);
      Step(p, decode(before))
  }

  class Processor<W(0)> {
    var regs: Bank
    var outRegs: Bank
    var loadReg: Register
    var loadValue: U32
    var world: W

    function State(): Pipe reads this { Pipe(regs, outRegs, loadReg, loadValue) }

    constructor (start: W)
      ensures State() == Cleared() && world == start
    {
      regs, outRegs := seq(32, _ => 0), seq(32, _ => 0);
      loadReg, loadValue := 0, 0;
      world := start;
    }

    method SetReg(index: Register, value: U32)
      modifies this`outRegs
      ensures outRegs == WithReg(old(outRegs), index, value)
    {
      outRegs := outRegs[index := value];
      outRegs := outRegs[0 := 0];
    }

    method ScheduleLoad(index: Register, value: U32)
      modifies this`loadReg, this`loadValue
      ensures loadReg == index && loadValue == value
    {
      loadReg, loadValue := index, value;
    }

    /** One instruction. */
    method Advance(turn: Turn<W>)
      modifies this
      ensures (State(), world) == Step(old(State()), turn)
    {
      var landing := loadReg;
      var displaced := outRegs[landing];
      SetReg(loadReg, loadValue);
      loadReg, loadValue := 0, 0;
      match turn {
        case Refused(after) =>
          world := after;
        case Ordinary(run) =>
          var (effect, after) := run(regs);
          world := after;
          match effect {
            case Nothing =>
            case Sets(r, value) => SetReg(r, value);
            case Loads(r, value) => ScheduleLoad(r, value);
          }
        case Merging(target, merge) =>
          var (value, after) := merge(regs, outRegs[target]);
          world := after;
          ScheduleLoad(target, value);
      }
      if loadReg != 0 && loadReg == landing {
        SetReg(landing, displaced);
      }
      regs := outRegs;
    }
  }

  // ---- the reference: what a register holds, told from history alone ----

  predicate Touches(effect: Effect, r: Register) { !effect.Nothing? && effect.register == r }

  /**
    What instruction number |past| reads from `r`: the result of the instruction
    just before it, or a load by the one before that which its successor did not
    touch, or otherwise whatever its predecessor read.
   */
  function Readable(past: seq<Effect>, r: Register): U32 {
    var n := |past|;
    if r == 0 || n == 0 then 0
    else if past[n - 1].Sets? && past[n - 1].register == r then past[n - 1].value
    else if n > 1 && past[n - 2].Loads? && past[n - 2].register == r && !Touches(past[n - 1], r) then past[n - 2].value
    else Readable(past[..n - 1], r)
  }

  /** What LWL and LWR see in their target: a load in flight counts. */
  function InFlight(past: seq<Effect>, r: Register): U32 {
    var n := |past|;
    if r != 0 && n > 0 && past[n - 1].Loads? && past[n - 1].register == r then past[n - 1].value
    else Readable(past, r)
  }

  function AllReadable(past: seq<Effect>): Bank {
    seq(32, (r: Register) => Readable(past, r))
  }

  function Recount<W>(decode: W -> Turn<W>, world: W, n: nat): (seq<Effect>, W) {
    if n == 0 then ([], world)
    else
      var (past, before) := Recount(decode, world, n - 1);
      var (effect, after) := EffectOf(decode(before), AllReadable(past), (r: Register) => InFlight(past, r));
      (past + [effect], after)
  }

  // ---- the two agree ----

  /** The banks and the pending load, as a history of effects leaves them. */
  predicate Tells(p: Pipe, past: seq<Effect>) {
    var n := |past|;
    && p.outRegs == p.regs
    && p.regs == AllReadable(past)
    && (if n > 0 && past[n - 1].Loads? then p.loadReg == past[n - 1].register && p.loadValue == past[n - 1].value else p.loadReg == 0)
  }

  lemma LandedIsInFlight(p: Pipe, past: seq<Effect>, r: Register)
    requires Tells(p, past)
    ensures Landed(p)[r] == InFlight(past, r)
  {
  }

  lemma {:induction false} StepTells(p: Pipe, past: seq<Effect>, effect: Effect)
    requires Tells(p, past)
    ensures Tells(Executed(p, effect), past + [effect])
  {
    var next := Executed(p, effect);
    var longer := past + [effect];
    assert longer[..|past|] == past;
    forall r: Register ensures next.regs[r] == Readable(longer, r) {
      LandedIsInFlight(p, past, r);
    }
    assert next.regs == AllReadable(longer);
  }

  /**
    Over every run, the two banks and the pending load give each instruction
    exactly the registers the history says, so the whole machine does what a
    machine with delayed loads and no banks would.
   */
  lemma {:induction false} BanksAreDelayedLoads<W>(decode: W -> Turn<W>, world: W, n: nat)
    ensures Run(decode, world, n).1 == Recount(decode, world, n).1
    ensures Run(decode, world, n).0.regs == AllReadable(Recount(decode, world, n).0)
    ensures Tells(Run(decode, world, n).0, Recount(decode, world, n).0)
  {
    if n == 0 {
      assert Cleared().regs == AllReadable([]);
    } else {
      BanksAreDelayedLoads(decode, world, n - 1);
      var (p, before) := Run(decode, world, n - 1);
      var (past, same) := Recount(decode, world, n - 1);
      var turn := decode(before);
      if turn.Merging? { LandedIsInFlight(p, past, turn.target); }
      var (effect, after) := EffectOf(turn, p.regs, (r: Register) => Landed(p)[r]);
      assert (effect, after) == EffectOf(turn, AllReadable(past), (r: Register) => InFlight(past, r));
      StepTells(p, past, effect);
    }
  }

  // ---- what the history says about loads ----

  /** The next instruction reads what the load itself could, the one after it the loaded value. */
  lemma LoadDelay(past: seq<Effect>, r: Register, value: U32, next: Effect)
    requires r != 0
    ensures Readable(past + [Loads(r, value)], r) == Readable(past, r)
    ensures InFlight(past + [Loads(r, value)], r) == value
    ensures Readable(past + [Loads(r, value), next], r) ==
            if next.Sets? && next.register == r then next.value
            else if Touches(next, r) then Readable(past, r)
            else value
  {
    var once := past + [Loads(r, value)];
    assert once[..|past|] == past;
    var twice := past + [Loads(r, value), next];
    assert twice[..|once|] == once;
  }

  predicate Untouched(later: seq<Effect>, r: Register) { forall i :: 0 <= i < |later| ==> !Touches(later[i], r) }

  /** Once landed it stays, until something else reaches the register. */
  lemma {:induction false} LoadStays(past: seq<Effect>, r: Register, value: U32, later: seq<Effect>)
    requires r != 0 && |later| > 0 && Untouched(later, r)
    ensures Readable(past + [Loads(r, value)] + later, r) == value
  {
    var whole := past + [Loads(r, value)] + later;
    var n := |whole|;
    if |later| > 1 {
      LoadStays(past, r, value, later[..|later| - 1]);
      assert whole[..n - 1] == past + [Loads(r, value)] + later[..|later| - 1];
      assert whole[n - 2] == later[|later| - 2] && whole[n - 1] == later[|later| - 1];
    }
  }

  /** A load overtaken in its delay slot never arrives: no later reading depends on its value. */
  lemma {:induction false} OvertakenNeverArrives(past: seq<Effect>, r: Register, one: U32, other: U32, over: Effect, later: seq<Effect>, s: Register)
    requires Touches(over, r)
    ensures Readable(past + [Loads(r, one), over] + later, s) == Readable(past + [Loads(r, other), over] + later, s)
  {
    var a, b := past + [Loads(r, one), over] + later, past + [Loads(r, other), over] + later;
    var n := |a|;
    if later == [] {
      var c, d := past + [Loads(r, one)], past + [Loads(r, other)];
      assert a[..n - 1] == c && b[..n - 1] == d && c[..|past|] == past && d[..|past|] == past;
    } else {
      OvertakenNeverArrives(past, r, one, other, over, later[..|later| - 1], s);
      assert a[..n - 1] == past + [Loads(r, one), over] + later[..|later| - 1];
      assert b[..n - 1] == past + [Loads(r, other), over] + later[..|later| - 1];
      assert a[n - 1] == b[n - 1] && a[n - 2] == b[n - 2];
    }
  }
}
