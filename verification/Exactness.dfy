/** The worklist loop, and what it guarantees: the finished paths split the inputs exactly, and each
    one ends where the machine ends. */
module Exactness {
  import opened Words
  import opened Terms
  import opened Memory
  import opened Machine
  import opened SymbolicStep
  import opened Simulation

  // ----- counting the paths an input takes -----

  ghost function Weight(conds: seq<Cond>, env: Env): (n: nat) {
    if Sat(conds, env) then 1 else 0
  }

  ghost function CountItems(items: seq<Item>, env: Env): (n: nat) {
    if items == [] then 0 else Weight(items[0].conds, env) + CountItems(items[1..], env)
  }

  ghost function CountPaths(paths: seq<Path>, env: Env): (n: nat) {
    if paths == [] then 0 else Weight(paths[0].conds, env) + CountPaths(paths[1..], env)
  }

  ghost function OutWeight(o: Out, env: Env): (n: nat) {
    (if o.cur.Some? then Weight(o.cur.value.conds, env) else 0) + CountItems(o.queued, env) + CountPaths(o.done, env)
  }

  lemma {:induction false} CountItemsConcat(xs: seq<Item>, ys: seq<Item>, env: Env)
    ensures CountItems(xs + ys, env) == CountItems(xs, env) + CountItems(ys, env)
  {
    if xs == [] {
      assert xs + ys == ys;
    } else {
      assert (xs + ys)[1..] == xs[1..] + ys;
      CountItemsConcat(xs[1..], ys, env);
    }
  }

  lemma {:induction false} CountPathsConcat(xs: seq<Path>, ys: seq<Path>, env: Env)
    ensures CountPaths(xs + ys, env) == CountPaths(xs, env) + CountPaths(ys, env)
  {
    if xs == [] {
      assert xs + ys == ys;
    } else {
      assert (xs + ys)[1..] == xs[1..] + ys;
      CountPathsConcat(xs[1..], ys, env);
    }
  }

  lemma {:induction false} CountItemsPositive(items: seq<Item>, env: Env, i: nat)
    requires i < |items| && Sat(items[i].conds, env)
    ensures CountItems(items, env) >= 1
  {
    if i > 0 {
      CountItemsPositive(items[1..], env, i - 1);
    }
  }

  lemma {:induction false} CountPathsPositive(paths: seq<Path>, env: Env, i: nat)
    requires i < |paths| && Sat(paths[i].conds, env)
    ensures CountPaths(paths, env) >= 1
  {
    if i > 0 {
      CountPathsPositive(paths[1..], env, i - 1);
    }
  }

  lemma CountOneItem(it: Item, env: Env)
    ensures CountItems([it], env) == Weight(it.conds, env)
  {
    assert [it][1..] == [];
  }

  lemma CountOnePath(p: Path, env: Env)
    ensures CountPaths([p], env) == Weight(p.conds, env)
  {
    assert [p][1..] == [];
  }

  // ----- a step splits its path -----

  /** A fork into two complementary conditions, either of which may be pruned as infeasible. */
  lemma ForkWeight(solver: Solver, conds: seq<Cond>, c: Cond, d: Cond, env: Env)
    requires solver.Sound() && (Holds(d, env) <==> !Holds(c, env))
    ensures Weight(conds + [c], env) + Weight(conds + [d], env) == Weight(conds, env)
    ensures !solver.feasible(conds + [c]) ==> Weight(conds + [c], env) == 0
    ensures !solver.feasible(conds + [d]) ==> Weight(conds + [d], env) == 0
    ensures c == BoolVal(false) ==> Weight(conds + [c], env) == 0
    ensures d == BoolVal(false) ==> Weight(conds + [d], env) == 0
    ensures c == BoolVal(true) ==> Weight(conds + [c], env) == Weight(conds, env)
    ensures d == BoolVal(true) ==> Weight(conds + [d], env) == Weight(conds, env)
  {
    SatSnoc(conds, c, env);
    SatSnoc(conds, d, env);
    BoolValue(false, env);
    BoolValue(true, env);
    hide Sat;
  }

  lemma JumpSplits(solver: Solver, it: Item, cond: Cond, off: int, nc: nat, env: Env)
    requires solver.Sound()
    ensures OutWeight(SymJump(solver, it, cond, off, nc), env) == Weight(it.conds, env)
  {
    hide Weight, Eval, EvalBin;
    var c := solver.simplifyCond(cond);
    ForkWeight(solver, it.conds, c, Not(c), env);
    CountOneItem(it.(pc := it.pc + 1 + off, conds := it.conds + [c]), env);
  }

  lemma LookupSplits(prog: Program, solver: Solver, it: Item, nc: nat, env: Env)
    requires solver.Sound() && SymLookup(prog, solver, it, nc).Ok?
    ensures OutWeight(SymLookup(prog, solver, it, nc).value, env) == Weight(it.conds, env)
  {
    hide Weight, Eval, EvalBin, SymLookupQuestion, SymClobbered;
    var absent := NullAnswer(H_MAP_LOOKUP, it.counters.Calls(H_MAP_LOOKUP));
    ForkWeight(solver, it.conds, absent, Not(absent), env);
    CountOneItem(SymLookup(prog, solver, it, nc).value.queued[0], env);
  }

  lemma LoopSplits(solver: Solver, it: Item, nc: nat, env: Env)
    requires solver.Sound() && SymLoop(solver, it, nc).Ok?
    ensures OutWeight(SymLoop(solver, it, nc).value, env) == Weight(it.conds, env)
  {
    hide Weight, Eval, Holds, Sat, SymClobbered, SymCallbackRegs, LoopPayload;
    var n := Lo32(solver.simplify(it.regs[1].t));
    EnterOrSkip(solver, n, env);
    var enter := solver.simplifyCond(Compare(CmpUgt, W64, n, Const(0)));
    var skip := solver.simplifyCond(Compare(CmpEq, W64, n, Const(0)));
    ForkWeight(solver, it.conds, skip, enter, env);
    var o := SymLoop(solver, it, nc).value;
    if o.queued != [] { CountOneItem(o.queued[0], env); }
  }

  lemma LoopExitSplits(solver: Solver, it: Item, nc: nat, env: Env)
    requires solver.Sound() && it.stack != [] && it.stack[|it.stack| - 1].Loop?
    requires SymLoopExit(solver, it, nc).Ok?
    ensures OutWeight(SymLoopExit(solver, it, nc).value, env) == Weight(it.conds, env)
  {
    hide Weight, Eval, Holds, Sat, SymClobbered, SymCallbackRegs;
    var top := it.stack[|it.stack| - 1];
    var r0 := it.regs[0].t;
    var limit := Const((top.i + 1) % TWO64);
    var more := solver.simplifyCond(Compare(CmpUgt, W64, top.n, limit));
    var go := solver.simplifyCond(Both(more, Compare(CmpEq, W64, r0, Const(0))));
    var stop := solver.simplifyCond(Either(Compare(CmpUle, W64, top.n, limit), Compare(CmpNe, W64, r0, Const(0))));
    GoOrStop(solver, top.n, (top.i + 1) % TWO64, r0, env);
    ForkWeight(solver, it.conds, stop, go, env);
    var o := SymLoopExit(solver, it, nc).value;
    if o.queued != [] { CountOneItem(o.queued[0], env); }
  }

  /** Of the paths a step makes of a path, an input takes exactly as many as it took before. */
  lemma StepSplits(prog: Program, canon: Region -> u64, solver: Solver, it: Item, nc: nat, env: Env)
    requires solver.Sound() && SymStep(prog, canon, solver, it, nc).Ok?
    ensures OutWeight(SymStep(prog, canon, solver, it, nc).value, env) == Weight(it.conds, env)
  {
    hide Weight, SymAlu, SymLoad, SymStore, SymEndian, SymAtomic, SymCond, SymLoop, SymLookup, SymLoopExit, SymJump,
         SymPayload;
    match Fetch(prog, it.sec, it.pc).value
    case Jump(code, is32, dst, src, off) =>
      JumpSplits(solver, it, SymCond(code, is32, it.regs[dst], SymOperand(it.regs, src, !is32)).value, off, nc, env);
    case CallHelper(hid) =>
      if hid == H_MAP_LOOKUP { LookupSplits(prog, solver, it, nc, env); }
      else if hid == H_LOOP { LoopSplits(solver, it, nc, env); }
    case Exit =>
      if it.stack == [] {
        CountOnePath(SymStep(prog, canon, solver, it, nc).value.done[0], env);
      } else if it.stack[|it.stack| - 1].Loop? {
        LoopExitSplits(solver, it, nc, env);
      }
    case _ =>
  }

  // ----- reaching -----

  ghost function Run(prog: Program, canon: Region -> u64, env: Env, sec: Name, entry: int, k: nat): (s: CState) {
    Steps(prog, canon, env, Start(sec, entry), k)
  }

  ghost predicate ReachesAt(prog: Program, canon: Region -> u64, sec: Name, entry: int, it: Item, env: Env) {
    exists k: nat :: Follows(canon, it, Run(prog, canon, env, sec, entry, k), env)
  }

  ghost predicate EndsAt(prog: Program, canon: Region -> u64, sec: Name, entry: int, p: Path, env: Env) {
    exists k: nat :: Finishes(canon, p, Run(prog, canon, env, sec, entry, k), env)
  }

  /** The machine comes to the state a suspended path describes, on every input that takes it. */
  ghost predicate Reaches(prog: Program, canon: Region -> u64, sec: Name, entry: int, it: Item) {
    forall env: Env :: ReachesAt(prog, canon, sec, entry, it, env)
  }

  /** The machine ends as a finished path says, on every input that takes it. */
  ghost predicate Ends(prog: Program, canon: Region -> u64, sec: Name, entry: int, p: Path) {
    forall env: Env :: EndsAt(prog, canon, sec, entry, p, env)
  }

  lemma StartReached(prog: Program, canon: Region -> u64, sec: Name, entry: int)
    ensures Reaches(prog, canon, sec, entry, SymStart(sec, entry))
  {
    forall env: Env
      ensures ReachesAt(prog, canon, sec, entry, SymStart(sec, entry), env)
    {
      InitialMemory(canon, env);
      hide MemRel, EvalBin;
      assert Describes(canon, SymStart(sec, entry), Start(sec, entry), env);
      assert Follows(canon, SymStart(sec, entry), Run(prog, canon, env, sec, entry, 0), env);
    }
  }

  /** A step from a reached path leads to reached and ended paths only. */
  lemma StepReaches(prog: Program, canon: Region -> u64, solver: Solver, sec: Name, entry: int, it: Item, nc: nat)
    requires solver.Sound() && Reaches(prog, canon, sec, entry, it) && SymStep(prog, canon, solver, it, nc).Ok?
    ensures var o := SymStep(prog, canon, solver, it, nc).value;
            && (o.cur.Some? ==> Reaches(prog, canon, sec, entry, o.cur.value))
            && (forall i :: 0 <= i < |o.queued| ==> Reaches(prog, canon, sec, entry, o.queued[i]))
            && (forall i :: 0 <= i < |o.done| ==> Ends(prog, canon, sec, entry, o.done[i]))
  {
    hide SymStep, Step, Describes, Sat, Follows, Finishes;
    var o := SymStep(prog, canon, solver, it, nc).value;
    forall env: Env | o.cur.Some?
      ensures ReachesAt(prog, canon, sec, entry, o.cur.value, env)
    {
      var k := StepRuns(prog, canon, solver, sec, entry, it, nc, env);
    }
    forall i, env: Env | 0 <= i < |o.queued|
      ensures ReachesAt(prog, canon, sec, entry, o.queued[i], env)
    {
      var k := StepRuns(prog, canon, solver, sec, entry, it, nc, env);
    }
    forall i, env: Env | 0 <= i < |o.done|
      ensures EndsAt(prog, canon, sec, entry, o.done[i], env)
    {
      var k := StepRuns(prog, canon, solver, sec, entry, it, nc, env);
    }
  }

  lemma StepRuns(prog: Program, canon: Region -> u64, solver: Solver, sec: Name, entry: int, it: Item, nc: nat,
                 env: Env)
    returns (k: nat)
    requires solver.Sound() && Reaches(prog, canon, sec, entry, it) && SymStep(prog, canon, solver, it, nc).Ok?
    ensures OutFollows(canon, SymStep(prog, canon, solver, it, nc).value, Run(prog, canon, env, sec, entry, k), env)
  {
    hide SymStep, Describes, Sat;
    assert ReachesAt(prog, canon, sec, entry, it, env);
    var j: nat :| Follows(canon, it, Run(prog, canon, env, sec, entry, j), env);
    k := j + 1;
    var s := Run(prog, canon, env, sec, entry, j);
    var s' := Run(prog, canon, env, sec, entry, k);
    assert s' == Step(prog, canon, env, s);
    var o := SymStep(prog, canon, solver, it, nc).value;
    if !Sat(it.conds, env) {
      StepSplits(prog, canon, solver, it, nc, env);
      NothingTaken(o, env);
      hide Step;
    } else if s.Trapped? {
      assert s' == s;
      hide Step;
    } else {
      hide Step;
      StepAgrees(prog, canon, solver, it, s, env, nc);
    }
  }

  lemma NothingTaken(o: Out, env: Env)
    requires OutWeight(o, env) == 0
    ensures o.cur.Some? ==> !Sat(o.cur.value.conds, env)
    ensures forall i :: 0 <= i < |o.queued| ==> !Sat(o.queued[i].conds, env)
    ensures forall i :: 0 <= i < |o.done| ==> !Sat(o.done[i].conds, env)
  {
    forall i | 0 <= i < |o.queued|
      ensures !Sat(o.queued[i].conds, env)
    {
      if Sat(o.queued[i].conds, env) { CountItemsPositive(o.queued, env, i); }
    }
    forall i | 0 <= i < |o.done|
      ensures !Sat(o.done[i].conds, env)
    {
      if Sat(o.done[i].conds, env) { CountPathsPositive(o.done, env, i); }
    }
  }

  // ----- events stay small -----

  /** Map names leave room for the key in a trace event. */
  predicate NamesFit(prog: Program) {
    forall n :: n in prog.keySize ==> |n| < 0x8000
  }

  /** Ids and payload lengths fit the trace layout. */
  predicate SizedLog(log: seq<SEvent>) {
    forall i :: 0 <= i < |log| ==> log[i].hid < 256 && |log[i].payload| < 0x1_0000
  }

  /** No instruction calls bpf_loop. */
  ghost predicate NoLoops(prog: Program) {
    forall sec, pc :: Fetch(prog, sec, pc) != Some(CallHelper(H_LOOP))
  }

  /** No bpf_loop event, whose record carries more than the event. */
  predicate LoopFree(log: seq<SEvent>) {
    forall i :: 0 <= i < |log| ==> log[i].hid != H_LOOP
  }

  /** The numeral test recognises no truncated term, so no trip count. */
  ghost predicate NoNumerals(solver: Solver) {
    forall t :: solver.literal(Lo32(t)).None?
  }

  /** Every loop record stands for an unknown trip count. */
  predicate UnknownTrips(log: seq<SEvent>) {
    forall i :: 0 <= i < |log| && log[i].hid == H_LOOP ==> log[i].payload == LoopPayload(None)
  }

  ghost predicate LogOk(prog: Program, solver: Solver, log: seq<SEvent>) {
    SizedLog(log) && (NoLoops(prog) ==> LoopFree(log)) && (NoNumerals(solver) ==> UnknownTrips(log))
  }

  ghost predicate AllSized(prog: Program, solver: Solver, paths: seq<Path>, items: seq<Item>) {
    && (forall i :: 0 <= i < |paths| ==> LogOk(prog, solver, paths[i].log))
    && (forall i :: 0 <= i < |items| ==> LogOk(prog, solver, items[i].log))
  }

  lemma {:induction false} BytesLength(solver: Solver, m: SMem, p: SVal, k: nat, n: nat)
    requires k <= n && SymBytes(solver, m, p, k, n).Ok?
    ensures |SymBytes(solver, m, p, k, n).value| == n - k
    decreases n - k
  {
    hide SymLoad;
    if k < n {
      BytesLength(solver, m, p, k + 1, n);
    }
  }

  lemma ArgLength(solver: Solver, m: SMem, regs: SRegs, spec: ArgSpec)
    requires spec.r <= 5 && (spec.MemArg? ==> spec.len <= 5) && SymArgBytes(solver, m, regs, spec).Ok?
    ensures |SymArgBytes(solver, m, regs, spec).value| <= MAX_ARG + 4
  {
    hide SymBytes;
    if spec.MemArg? {
      var n := ConcreteAddr(solver, regs[spec.len].t).value % TWO32;
      BytesLength(solver, m, regs[spec.r], 0, n);
    }
  }

  lemma {:induction false} PayloadLength(solver: Solver, m: SMem, regs: SRegs, specs: seq<ArgSpec>)
    requires forall s :: s in specs ==> s.r <= 5 && (s.MemArg? ==> s.len <= 5)
    requires SymPayload(solver, m, regs, specs).Ok?
    ensures |SymPayload(solver, m, regs, specs).value| <= |specs| * (MAX_ARG + 4)
  {
    hide SymArgBytes;
    if specs != [] {
      ArgLength(solver, m, regs, specs[0]);
      PayloadLength(solver, m, regs, specs[1..]);
    }
  }

  lemma LoopPayloadLength(trips: Option<u64>)
    ensures |LoopPayload(trips)| == 5
  {
  }

  lemma HelperSized(prog: Program, solver: Solver, it: Item, hid: nat, nc: nat)
    requires NamesFit(prog) && LogOk(prog, solver, it.log) && SymHelper(prog, solver, it, hid, nc).Ok?
    requires hid == H_LOOP ==> !NoLoops(prog)
    ensures var o := SymHelper(prog, solver, it, hid, nc).value;
            AllSized(prog, solver, o.done, o.queued + CurItems(o))
  {
    hide SymPayload, SymBytes, SymClobbered, SymCallbackRegs, NoLoops, LoopPayload;
    if hid == H_MAP_LOOKUP {
      var name := it.regs[1].r.name;
      BytesLength(solver, it.mem, it.regs[2], 0, prog.keySize[name]);
    } else if hid == H_LOOP {
      var trips := solver.literal(Lo32(solver.simplify(it.regs[1].t)));
      LoopPayloadLength(trips);
    } else if OracleBits(hid).None? {
      PayloadLength(solver, it.mem, it.regs, EventArgs(hid).value);
    }
  }

  /** No step records an event the trace layout cannot hold. */
  lemma StepSized(prog: Program, canon: Region -> u64, solver: Solver, it: Item, nc: nat)
    requires NamesFit(prog) && LogOk(prog, solver, it.log) && SymStep(prog, canon, solver, it, nc).Ok?
    ensures var o := SymStep(prog, canon, solver, it, nc).value;
            AllSized(prog, solver, o.done, o.queued + CurItems(o))
  {
    hide SymHelper, SymAlu, SymLoad, SymStore, SymEndian, SymAtomic, SymCond, SymClobbered, SymCallbackRegs, LogOk;
    match Fetch(prog, it.sec, it.pc).value
    case CallHelper(hid) => HelperSized(prog, solver, it, hid, nc);
    case _ =>
  }

  lemma AdvanceSized(prog: Program, canon: Region -> u64, solver: Solver, paths: seq<Path>, work: seq<Item>, it: Item,
                     nc: nat)
    requires NamesFit(prog) && SymStep(prog, canon, solver, it, nc).Ok? && AllSized(prog, solver, paths, work + [it])
    ensures var o := SymStep(prog, canon, solver, it, nc).value;
            AllSized(prog, solver, paths + o.done, work + o.queued + CurItems(o))
  {
    hide SymStep, LogOk;
    var before := work + [it];
    assert before[|work|] == it;
    assert forall i :: 0 <= i < |work| ==> before[i] == work[i];
    StepSized(prog, canon, solver, it, nc);
    var o := SymStep(prog, canon, solver, it, nc).value;
    var after, made := work + o.queued + CurItems(o), o.queued + CurItems(o);
    assert after == work + made;
  }

  // ----- the worklist -----

  /** The paths describe the program exactly: every input takes one of them, and the machine run on
      that input ends, unless it traps, with the path's return value, memory and events. */
  ghost predicate Exact(prog: Program, canon: Region -> u64, sec: Name, entry: int, paths: seq<Path>) {
    && (forall env: Env :: CountPaths(paths, env) == 1)
    && (forall i :: 0 <= i < |paths| ==> Ends(prog, canon, sec, entry, paths[i]))
  }

  ghost predicate Covered(paths: seq<Path>, items: seq<Item>) {
    forall env: Env :: CountPaths(paths, env) + CountItems(items, env) == 1
  }

  ghost predicate AllReached(prog: Program, canon: Region -> u64, sec: Name, entry: int, paths: seq<Path>,
                             items: seq<Item>) {
    && (forall i :: 0 <= i < |paths| ==> Ends(prog, canon, sec, entry, paths[i]))
    && (forall i :: 0 <= i < |items| ==> Reaches(prog, canon, sec, entry, items[i]))
  }

  function CurItems(o: Out): (items: seq<Item>) {
    if o.cur.Some? then [o.cur.value] else []
  }

  /** Replacing the current item by what a step makes of it keeps inputs covered and paths reached. */
  lemma AdvanceCovered(prog: Program, canon: Region -> u64, solver: Solver, paths: seq<Path>, work: seq<Item>,
                       it: Item, nc: nat)
    requires solver.Sound() && SymStep(prog, canon, solver, it, nc).Ok?
    requires Covered(paths, work + [it])
    ensures var o := SymStep(prog, canon, solver, it, nc).value;
            Covered(paths + o.done, work + o.queued + CurItems(o))
  {
    hide SymStep, Weight;
    var o := SymStep(prog, canon, solver, it, nc).value;
    forall env: Env
      ensures CountPaths(paths + o.done, env) + CountItems(work + o.queued + CurItems(o), env) == 1
    {
      StepSplits(prog, canon, solver, it, nc, env);
      CountPathsConcat(paths, o.done, env);
      CountItemsConcat(work, [it], env);
      CountItemsConcat(work + o.queued, CurItems(o), env);
      CountItemsConcat(work, o.queued, env);
      CountOneItem(it, env);
      if o.cur.Some? { CountOneItem(o.cur.value, env); }
    }
  }

  lemma AdvanceReached(prog: Program, canon: Region -> u64, solver: Solver, sec: Name, entry: int,
                       paths: seq<Path>, work: seq<Item>, it: Item, nc: nat)
    requires solver.Sound() && SymStep(prog, canon, solver, it, nc).Ok?
    requires AllReached(prog, canon, sec, entry, paths, work + [it])
    ensures var o := SymStep(prog, canon, solver, it, nc).value;
            AllReached(prog, canon, sec, entry, paths + o.done, work + o.queued + CurItems(o))
  {
    hide SymStep, Reaches, Ends;
    var before := work + [it];
    assert before[|work|] == it;
    assert forall i :: 0 <= i < |work| ==> before[i] == work[i];
    StepReaches(prog, canon, solver, sec, entry, it, nc);
  }

  /** Why an exploration gave up: a path it could not step, too many paths, a path of too many steps, or the
      budget. */
  datatype Refusal =
    | StepBails(it: Item, clobbers: nat)
    | TooManyPaths(paths: seq<Path>, work: seq<Item>)
    | TooLong(trail: seq<Item>)
    | OutOfBudget(taken: seq<Item>)

  ghost predicate GoesOn(prog: Program, canon: Region -> u64, solver: Solver, it: Item, next: Item) {
    exists nc: nat ::
      SymStep(prog, canon, solver, it, nc).Ok? && SymStep(prog, canon, solver, it, nc).value.cur == Some(next)
  }

  /** A reached path and the steps it then made, each going on from the one before. */
  ghost predicate Trail(prog: Program, canon: Region -> u64, solver: Solver, sec: Name, entry: int, trail: seq<Item>) {
    && trail != [] && Reaches(prog, canon, sec, entry, trail[0])
    && forall i :: 0 < i < |trail| ==> GoesOn(prog, canon, solver, trail[i - 1], trail[i])
  }

  lemma TrailMore(prog: Program, canon: Region -> u64, solver: Solver, sec: Name, entry: int, trail: seq<Item>, nc: nat)
    requires Trail(prog, canon, solver, sec, entry, trail)
    requires var r := SymStep(prog, canon, solver, trail[|trail| - 1], nc); r.Ok? && r.value.cur.Some?
    ensures var next := SymStep(prog, canon, solver, trail[|trail| - 1], nc).value.cur.value;
            Trail(prog, canon, solver, sec, entry, trail + [next])
  {
    hide SymStep, Reaches;
    var next := SymStep(prog, canon, solver, trail[|trail| - 1], nc).value.cur.value;
    var more := trail + [next];
    assert GoesOn(prog, canon, solver, trail[|trail| - 1], next);
    forall i | 0 < i < |more|
      ensures GoesOn(prog, canon, solver, more[i - 1], more[i])
    {
      if i < |trail| { assert GoesOn(prog, canon, solver, trail[i - 1], trail[i]); }
    }
  }

  /** The reason is a real one. */
  ghost predicate Justified(prog: Program, canon: Region -> u64, solver: Solver, sec: Name, entry: int, budget: nat,
                            why: Refusal) {
    match why
    case StepBails(it, nc) => Reaches(prog, canon, sec, entry, it) && SymStep(prog, canon, solver, it, nc).Bail?
    case TooManyPaths(paths, work) =>
      |paths| + |work| > 4096 && Covered(paths, work) && AllReached(prog, canon, sec, entry, paths, work)
    case TooLong(trail) => |trail| == 50001 && Trail(prog, canon, solver, sec, entry, trail)
    case OutOfBudget(taken) =>
      |taken| == budget && forall i :: 0 <= i < |taken| ==> Reaches(prog, canon, sec, entry, taken[i])
  }

  ghost predicate Refused(prog: Program, canon: Region -> u64, solver: Solver, sec: Name, entry: int, budget: nat) {
    exists why :: Justified(prog, canon, solver, sec, entry, budget, why)
  }

  lemma WentTooFar(prog: Program, canon: Region -> u64, solver: Solver, sec: Name, entry: int, budget: nat,
                   trail: seq<Item>)
    requires |trail| == 50001 && Trail(prog, canon, solver, sec, entry, trail)
    ensures Refused(prog, canon, solver, sec, entry, budget)
  {
    hide Trail;
    assert Justified(prog, canon, solver, sec, entry, budget, TooLong(trail));
  }

  lemma CouldNotStep(prog: Program, canon: Region -> u64, solver: Solver, sec: Name, entry: int, budget: nat, it: Item,
                     nc: nat)
    requires Reaches(prog, canon, sec, entry, it) && SymStep(prog, canon, solver, it, nc).Bail?
    ensures Refused(prog, canon, solver, sec, entry, budget)
  {
    hide SymStep, Reaches;
    assert Justified(prog, canon, solver, sec, entry, budget, StepBails(it, nc));
  }

  lemma SomePath(paths: seq<Path>)
    requires Covered(paths, [])
    ensures paths != []
  {
    var env := Env(_ => 0, (_, _) => 0, (_, _) => false, (_, _) => 0);
    assert CountPaths(paths, env) + CountItems([], env) == 1;
  }

  lemma LastReached(prog: Program, canon: Region -> u64, sec: Name, entry: int, paths: seq<Path>, work: seq<Item>,
                    it: Item)
    requires AllReached(prog, canon, sec, entry, paths, work + [it])
    ensures Reaches(prog, canon, sec, entry, it)
  {
    hide Reaches, Ends;
    assert (work + [it])[|work|] == it;
  }

  class Executor {
    const prog: Program
    const canon: Region -> u64
    const solver: Solver
    var paths: seq<Path>
    var nclobber: nat

    constructor (prog: Program, canon: Region -> u64, solver: Solver)
      ensures this.prog == prog && this.canon == canon && this.solver == solver && paths == [] && nclobber == 0
    {
      this.prog, this.canon, this.solver := prog, canon, solver;
      paths, nclobber := [], 0;
    }

    /** Explores every path from the entry. The budget bounds the items taken off the worklist, which
        the program's own limits leave open. */
    method Run(sec: Name, entry: int, budget: nat) returns (ok: bool)
      requires solver.Sound() && paths == []
      modifies this
      ensures ok ==> paths != [] && Exact(prog, canon, sec, entry, paths)
      ensures ok && NamesFit(prog) ==> AllSized(prog, solver, paths, [])
      ensures !ok ==> Refused(prog, canon, solver, sec, entry, budget)
    {
      var work := [SymStart(sec, entry)];
      ghost var taken: seq<Item> := [];
      StartReached(prog, canon, sec, entry);
      StartCovered(sec, entry);
      var fuel := budget;
      while work != []
        invariant Covered(paths, work)
        invariant AllReached(prog, canon, sec, entry, paths, work)
        invariant NamesFit(prog) ==> AllSized(prog, solver, paths, work)
        invariant |taken| + fuel == budget
        invariant forall i :: 0 <= i < |taken| ==> Reaches(prog, canon, sec, entry, taken[i])
        decreases fuel
      {
        hide SymStep, Reaches, Ends, Covered, AllSized, NamesFit;
        if |paths| + |work| > MAX_PATHS {
          assert Justified(prog, canon, solver, sec, entry, budget, TooManyPaths(paths, work));
          return false;
        }
        if fuel == 0 {
          assert Justified(prog, canon, solver, sec, entry, budget, OutOfBudget(taken));
          return false;
        }
        fuel := fuel - 1;
        var cur := work[|work| - 1];
        ghost var all := work;
        work := work[..|work| - 1];
        assert work + [cur] == all;
        LastReached(prog, canon, sec, entry, paths, work, cur);
        taken := taken + [cur];
        ghost var trail := [cur];
        var steps, active := 0, true;
        while active
          invariant Covered(paths, work + if active then [cur] else [])
          invariant AllReached(prog, canon, sec, entry, paths, work + if active then [cur] else [])
          invariant NamesFit(prog) ==> AllSized(prog, solver, paths, work + if active then [cur] else [])
          invariant steps <= MAX_INSNS_PER_PATH
          invariant active ==> |trail| == steps + 1 && trail[steps] == cur
                                && Trail(prog, canon, solver, sec, entry, trail)
          decreases active, MAX_INSNS_PER_PATH - steps
        {
          hide AllReached, Trail, Justified;
          steps := steps + 1;
          if steps > MAX_INSNS_PER_PATH {
            WentTooFar(prog, canon, solver, sec, entry, budget, trail);
            return false;
          }
          var stepped := SymStep(prog, canon, solver, cur, nclobber);
          if stepped.Bail? {
            LastReached(prog, canon, sec, entry, paths, work, cur);
            CouldNotStep(prog, canon, solver, sec, entry, budget, cur, nclobber);
            return false;
          }
          if stepped.value.cur.Some? {
            TrailMore(prog, canon, solver, sec, entry, trail, nclobber);
            trail := trail + [stepped.value.cur.value];
          }
          AdvanceCovered(prog, canon, solver, paths, work, cur, nclobber);
          AdvanceReached(prog, canon, solver, sec, entry, paths, work, cur, nclobber);
          if NamesFit(prog) { AdvanceSized(prog, canon, solver, paths, work, cur, nclobber); }
          var o := stepped.value;
          work := work + o.queued;
          paths := paths + o.done;
          nclobber := o.clobbers;
          if o.cur.Some? {
            cur := o.cur.value;
          } else {
            active := false;
          }
        }
        assert work + [] == work;
      }
      ExactWhenDone(prog, canon, sec, entry, paths);
      SomePath(paths);
      return paths != [];
    }
  }

  lemma StartCovered(sec: Name, entry: int)
    ensures Covered([], [SymStart(sec, entry)])
  {
    forall env: Env
      ensures CountPaths([], env) + CountItems([SymStart(sec, entry)], env) == 1
    {
      CountOneItem(SymStart(sec, entry), env);
    }
  }

  lemma ExactWhenDone(prog: Program, canon: Region -> u64, sec: Name, entry: int, paths: seq<Path>)
    requires Covered(paths, []) && AllReached(prog, canon, sec, entry, paths, [])
    ensures Exact(prog, canon, sec, entry, paths)
  {
    forall env: Env
      ensures CountPaths(paths, env) == 1
    {
      assert CountItems([], env) == 0;
    }
  }
}
