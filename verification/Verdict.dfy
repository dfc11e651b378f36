/** Folding paths into summaries, asking the solver, and what its answer means for the two programs. */
module Verdict {
  import opened Words
  import opened Terms
  import opened Memory
  import opened Machine
  import opened SymbolicStep
  import opened Simulation
  import opened Exactness
  import opened Trace

  // ----- if-then-else summaries -----

  function Conj(conds: seq<Cond>): (c: Cond) {
    if conds == [] then BoolVal(true) else Both(Conj(conds[..|conds| - 1]), conds[|conds| - 1])
  }

  lemma {:induction false} ConjHolds(conds: seq<Cond>, env: Env)
    ensures Holds(Conj(conds), env) <==> Sat(conds, env)
  {
    if conds != [] {
      var n := |conds| - 1;
      ConjHolds(conds[..n], env);
      SatSnoc(conds[..n], conds[n], env);
      assert conds == conds[..n] + [conds[n]];
      hide Sat, EvalCmp;
    }
  }

  /** The input takes this path and no other. */
  ghost predicate Takes(paths: seq<Path>, env: Env, i: int) {
    0 <= i < |paths| && CountPaths(paths, env) == 1 && Sat(paths[i].conds, env)
  }

  lemma {:induction false} CountTwo(paths: seq<Path>, env: Env, i: nat, j: nat)
    requires i < j < |paths| && Sat(paths[i].conds, env) && Sat(paths[j].conds, env)
    ensures CountPaths(paths, env) >= 2
  {
    if i == 0 {
      CountPathsPositive(paths[1..], env, j - 1);
    } else {
      CountTwo(paths[1..], env, i - 1, j - 1);
    }
  }

  lemma OnlyOne(paths: seq<Path>, env: Env, i: nat, j: nat)
    requires Takes(paths, env, i) && j < |paths| && j != i
    ensures !Sat(paths[j].conds, env)
  {
    if Sat(paths[j].conds, env) {
      CountTwo(paths, env, if i < j then i else j, if i < j then j else i);
    }
  }

  lemma {:induction false} SomeTaken(paths: seq<Path>, env: Env) returns (i: nat)
    requires CountPaths(paths, env) >= 1
    ensures i < |paths| && Sat(paths[i].conds, env)
  {
    if Sat(paths[0].conds, env) {
      i := 0;
    } else {
      i := SomeTaken(paths[1..], env);
      i := i + 1;
    }
  }

  /** Folds the return values. The last path's condition is dropped. */
  method SummarizeRet(paths: seq<Path>) returns (expr: Term)
    requires paths != []
    ensures forall env, j :: Takes(paths, env, j) ==> Eval(expr, env) == Eval(paths[j].ret, env)
  {
    expr := paths[|paths| - 1].ret;
    var i := |paths| - 1;
    while i > 0
      invariant 0 <= i < |paths|
      invariant forall env, j :: Takes(paths, env, j) && i <= j ==> Eval(expr, env) == Eval(paths[j].ret, env)
    {
      i := i - 1;
      var rest := expr;
      expr := If(Conj(paths[i].conds), paths[i].ret, rest);
      forall env, j | Takes(paths, env, j) && i <= j
        ensures Eval(expr, env) == Eval(paths[j].ret, env)
      {
        ConjHolds(paths[i].conds, env);
        if j != i { OnlyOne(paths, env, j, i); }
        hide CountPaths, Sat, EvalBin;
      }
    }
  }

  /** Folds one region's final contents. */
  method Summarize(paths: seq<Path>, r: Region) returns (expr: Array)
    requires paths != []
    ensures forall env, j, a :: Takes(paths, env, j) ==> At(expr, a, env) == At(paths[j].mem.Arr(r), a, env)
  {
    expr := paths[|paths| - 1].mem.Arr(r);
    var i := |paths| - 1;
    while i > 0
      invariant 0 <= i < |paths|
      invariant forall env, j, a :: Takes(paths, env, j) && i <= j ==>
                  At(expr, a, env) == At(paths[j].mem.Arr(r), a, env)
    {
      i := i - 1;
      var rest := expr;
      expr := ArrIf(Conj(paths[i].conds), paths[i].mem.Arr(r), rest);
      forall env, j, a | Takes(paths, env, j) && i <= j
        ensures At(expr, a, env) == At(paths[j].mem.Arr(r), a, env)
      {
        ConjHolds(paths[i].conds, env);
        if j != i { OnlyOne(paths, env, j, i); }
        hide CountPaths, Sat, EvalBin;
      }
    }
  }

  /** Folds the trace. */
  method SummarizeTrace(paths: seq<Path>) returns (expr: TraceArr)
    requires paths != []
    ensures forall env, j, init, a: nat :: Takes(paths, env, j) ==>
              TraceAt(expr, env, init, a) == TraceAt(TraceOf(paths[j].log), env, init, a)
  {
    expr := TraceOf(paths[|paths| - 1].log);
    var i := |paths| - 1;
    while i > 0
      invariant 0 <= i < |paths|
      invariant forall env, j, init, a: nat :: Takes(paths, env, j) && i <= j ==>
                  TraceAt(expr, env, init, a) == TraceAt(TraceOf(paths[j].log), env, init, a)
    {
      i := i - 1;
      var rest := expr;
      expr := TraceIf(Conj(paths[i].conds), TraceOf(paths[i].log), rest);
      forall env, j, init, a: nat | Takes(paths, env, j) && i <= j
        ensures TraceAt(expr, env, init, a) == TraceAt(TraceOf(paths[j].log), env, init, a)
      {
        ConjHolds(paths[i].conds, env);
        if j != i { OnlyOne(paths, env, j, i); }
        hide CountPaths, Sat, Eval;
      }
    }
  }

  // ----- the query -----

  /** How much of the return value is compared. */
  datatype RetMode = NoRet | LowHalf | FullRet

  ghost predicate RetEq(mode: RetMode, x: u64, y: u64) {
    match mode
    case NoRet => true
    case LowHalf => x % TWO32 == y % TWO32
    case FullRet => x == y
  }

  datatype Query = Query(mode: RetMode, retA: Term, retB: Term, arrays: seq<(Array, Array)>, traceA: TraceArr,
                         traceB: TraceArr)

  /** The two runs share everything but their register residue. */
  ghost predicate SameInput(e: Env, e': Env) {
    e.oracle == e'.oracle && e.isNull == e'.isNull && e.init == e'.init
  }

  /** All compared pairs are equal, program A evaluated in e and program B in e'. */
  ghost predicate AllEqual(q: Query, e: Env, e': Env, init: nat -> u8) {
    && RetEq(q.mode, Eval(q.retA, e), Eval(q.retB, e'))
    && (forall i, a: u64 :: 0 <= i < |q.arrays| ==> At(q.arrays[i].0, a, e) == At(q.arrays[i].1, a, e'))
    && (forall a: nat :: TraceAt(q.traceA, e, init, a) == TraceAt(q.traceB, e', init, a))
  }

  datatype Answer = Unsat | Unknown | Model(e: Env, e': Env, init: nat -> u8)

  ghost predicate Truthful(decide: Query -> Answer) {
    && (forall q, e, e', init :: decide(q).Unsat? && SameInput(e, e') ==> AllEqual(q, e, e', init))
    && (forall q :: decide(q).Model? ==>
          SameInput(decide(q).e, decide(q).e') && !AllEqual(q, decide(q).e, decide(q).e', decide(q).init))
  }

  datatype Verdict =
    | EQUIV(mode: RetMode)
    | EQUIV32
    | INEQUIV(mode: RetMode, e: Env, e': Env, init: nat -> u8)
    | BAIL
    | UNKNOWN

  predicate VoidReturn(paths: seq<Path>) {
    forall i :: 0 <= i < |paths| ==> paths[i].ret == Sym(Uninit(0))
  }

  /** The declared return width decides; without one, a program that never sets r0 is void. */
  function ModeOf(retBits: Option<nat>, pathsA: seq<Path>, pathsB: seq<Path>): (m: RetMode) {
    match retBits
    case Some(bits) => if bits == 0 then NoRet else if bits <= 32 then LowHalf else FullRet
    case None => if VoidReturn(pathsA) || VoidReturn(pathsB) then NoRet else FullRet
  }

  /** A declared width of 0 bits compares no return value, one of at most 32 the low half, a wider one all of it;
      without a declaration, none if one program never sets r0 on any path, and all of it otherwise. */
  ghost predicate ModeFits(mode: RetMode, retBits: Option<nat>, pathsA: seq<Path>, pathsB: seq<Path>) {
    && (retBits == Some(0) ==> mode == NoRet)
    && (retBits.Some? && 1 <= retBits.value <= 32 ==> mode == LowHalf)
    && (retBits.Some? && 32 < retBits.value ==> mode == FullRet)
    && (retBits.None? ==> mode == NoRet || mode == FullRet)
    && (retBits.None? ==>
          (mode == NoRet <==>
           || (forall i :: 0 <= i < |pathsA| ==> pathsA[i].ret == Sym(Uninit(0)))
           || (forall i :: 0 <= i < |pathsB| ==> pathsB[i].ret == Sym(Uninit(0)))))
  }

  /** The paths two inputs take agree on everything that is compared. */
  ghost predicate PathsAgree(mode: RetMode, p: Path, q: Path, regions: seq<Region>, e: Env, e': Env, init: nat -> u8) {
    && RetEq(mode, Eval(p.ret, e), Eval(q.ret, e'))
    && (forall i, a: u64 :: 0 <= i < |regions| ==> At(p.mem.Arr(regions[i]), a, e) == At(q.mem.Arr(regions[i]), a, e'))
    && (forall a: nat :: TraceAt(TraceOf(p.log), e, init, a) == TraceAt(TraceOf(q.log), e', init, a))
  }

  ghost predicate AlwaysAgree(mode: RetMode, pathsA: seq<Path>, pathsB: seq<Path>, regions: seq<Region>) {
    forall e, e', init, i, j :: SameInput(e, e') && Takes(pathsA, e, i) && Takes(pathsB, e', j) ==>
      PathsAgree(mode, pathsA[i], pathsB[j], regions, e, e', init)
  }

  ghost predicate Summarizes(q: Query, pathsA: seq<Path>, pathsB: seq<Path>, regions: seq<Region>) {
    && |q.arrays| == |regions|
    && (forall e, j :: Takes(pathsA, e, j) ==> Eval(q.retA, e) == Eval(pathsA[j].ret, e))
    && (forall e, j :: Takes(pathsB, e, j) ==> Eval(q.retB, e) == Eval(pathsB[j].ret, e))
    && (forall i, e, j, a :: 0 <= i < |regions| && Takes(pathsA, e, j) ==>
        At(q.arrays[i].0, a, e) == At(pathsA[j].mem.Arr(regions[i]), a, e))
    && (forall i, e, j, a :: 0 <= i < |regions| && Takes(pathsB, e, j) ==>
        At(q.arrays[i].1, a, e) == At(pathsB[j].mem.Arr(regions[i]), a, e))
    && (forall e, j, init, a: nat :: Takes(pathsA, e, j) ==>
        TraceAt(q.traceA, e, init, a) == TraceAt(TraceOf(pathsA[j].log), e, init, a))
    && (forall e, j, init, a: nat :: Takes(pathsB, e, j) ==>
        TraceAt(q.traceB, e, init, a) == TraceAt(TraceOf(pathsB[j].log), e, init, a))
  }

  /** The query is about the paths actually taken. */
  lemma QueryMeaning(q: Query, pathsA: seq<Path>, pathsB: seq<Path>, regions: seq<Region>, e: Env, e': Env,
                     init: nat -> u8, i: int, j: int)
    requires Summarizes(q, pathsA, pathsB, regions) && Takes(pathsA, e, i) && Takes(pathsB, e', j)
    ensures AllEqual(q, e, e', init) <==> PathsAgree(q.mode, pathsA[i], pathsB[j], regions, e, e', init)
  {
    hide CountPaths, Sat, Eval, At, TraceAt, TraceOf, RetEq;
    var p, p' := pathsA[i], pathsB[j];
    forall k, a: u64 | 0 <= k < |regions|
      ensures At(q.arrays[k].0, a, e) == At(p.mem.Arr(regions[k]), a, e)
      ensures At(q.arrays[k].1, a, e') == At(p'.mem.Arr(regions[k]), a, e')
    {
    }
    forall a: nat
      ensures TraceAt(q.traceA, e, init, a) == TraceAt(TraceOf(p.log), e, init, a)
      ensures TraceAt(q.traceB, e', init, a) == TraceAt(TraceOf(p'.log), e', init, a)
    {
    }
    if AllEqual(q, e, e', init) {
      forall k, a: u64 | 0 <= k < |regions|
        ensures At(p.mem.Arr(regions[k]), a, e) == At(p'.mem.Arr(regions[k]), a, e')
      {
        assert At(q.arrays[k].0, a, e) == At(q.arrays[k].1, a, e');
      }
    }
    if PathsAgree(q.mode, p, p', regions, e, e', init) {
      forall k, a: u64 | 0 <= k < |q.arrays|
        ensures At(q.arrays[k].0, a, e) == At(q.arrays[k].1, a, e')
      {
        assert At(p.mem.Arr(regions[k]), a, e) == At(p'.mem.Arr(regions[k]), a, e');
      }
    }
  }

  /** The verdict on two sets of paths, by the folded summaries. */
  method CheckProgram(pathsA: seq<Path>, pathsB: seq<Path>, regions: seq<Region>, retBits: Option<nat>,
                      decide: Query -> Answer, hasResidue: Query -> bool) returns (v: Verdict)
    requires pathsA != [] && pathsB != [] && Truthful(decide)
    ensures v.EQUIV? || v.INEQUIV? ==> ModeFits(v.mode, retBits, pathsA, pathsB)
    ensures v.EQUIV? ==> AlwaysAgree(v.mode, pathsA, pathsB, regions)
    ensures v.EQUIV32? ==> ModeFits(FullRet, retBits, pathsA, pathsB) && AlwaysAgree(LowHalf, pathsA, pathsB, regions)
    ensures v.BAIL? ==> exists q :: hasResidue(q) && decide(q).Model?
    ensures v.UNKNOWN? ==> exists q :: decide(q).Unknown?
    ensures v.INEQUIV? ==>
              SameInput(v.e, v.e') && forall i, j :: Takes(pathsA, v.e, i) && Takes(pathsB, v.e', j) ==>
                !PathsAgree(v.mode, pathsA[i], pathsB[j], regions, v.e, v.e', v.init)
  {
    hide CountPaths, Sat, PathsAgree, AllEqual, SameInput;
    var retA := SummarizeRet(pathsA);
    var retB := SummarizeRet(pathsB);
    var traceA := SummarizeTrace(pathsA);
    var traceB := SummarizeTrace(pathsB);
    var arrays: seq<(Array, Array)> := [];
    var k := 0;
    while k < |regions|
      invariant 0 <= k <= |regions| && |arrays| == k
      invariant forall i, e, j, a :: 0 <= i < k && Takes(pathsA, e, j) ==>
                  At(arrays[i].0, a, e) == At(pathsA[j].mem.Arr(regions[i]), a, e)
      invariant forall i, e, j, a :: 0 <= i < k && Takes(pathsB, e, j) ==>
                  At(arrays[i].1, a, e) == At(pathsB[j].mem.Arr(regions[i]), a, e)
    {
      hide At;
      var x := Summarize(pathsA, regions[k]);
      var y := Summarize(pathsB, regions[k]);
      arrays := arrays + [(x, y)];
      k := k + 1;
    }
    var mode := ModeOf(retBits, pathsA, pathsB);
    var q := Query(mode, retA, retB, arrays, traceA, traceB);
    assert Summarizes(q, pathsA, pathsB, regions) by { hide Eval, At, TraceAt; }
    hide Summarizes;
    var answer := decide(q);
    if answer.Unsat? {
      UnsatMeans(decide, q, pathsA, pathsB, regions);
      return EQUIV(mode);
    }
    if answer.Unknown? { return UNKNOWN; }
    if hasResidue(q) { return BAIL; }
    if mode == FullRet {
      var low := q.(mode := LowHalf);
      assert Summarizes(low, pathsA, pathsB, regions) by { OtherMode(q, low, pathsA, pathsB, regions); }
      if decide(low).Unsat? {
        UnsatMeans(decide, low, pathsA, pathsB, regions);
        return EQUIV32;
      }
    }
    ModelMeans(decide, q, pathsA, pathsB, regions);
    return INEQUIV(mode, answer.e, answer.e', answer.init);
  }

  lemma OtherMode(q: Query, q': Query, pathsA: seq<Path>, pathsB: seq<Path>, regions: seq<Region>)
    requires Summarizes(q, pathsA, pathsB, regions) && q' == q.(mode := q'.mode)
    ensures Summarizes(q', pathsA, pathsB, regions)
  {
    hide Eval, At, TraceAt, Takes, TraceOf;
  }

  lemma UnsatMeans(decide: Query -> Answer, q: Query, pathsA: seq<Path>, pathsB: seq<Path>, regions: seq<Region>)
    requires Truthful(decide) && decide(q).Unsat? && Summarizes(q, pathsA, pathsB, regions)
    ensures AlwaysAgree(q.mode, pathsA, pathsB, regions)
  {
    hide CountPaths, Sat, PathsAgree, AllEqual, SameInput, Summarizes;
    forall e, e', init, i, j | SameInput(e, e') && Takes(pathsA, e, i) && Takes(pathsB, e', j)
      ensures PathsAgree(q.mode, pathsA[i], pathsB[j], regions, e, e', init)
    {
      QueryMeaning(q, pathsA, pathsB, regions, e, e', init, i, j);
    }
  }

  lemma ModelMeans(decide: Query -> Answer, q: Query, pathsA: seq<Path>, pathsB: seq<Path>, regions: seq<Region>)
    requires Truthful(decide) && decide(q).Model? && Summarizes(q, pathsA, pathsB, regions)
    ensures var m := decide(q);
            SameInput(m.e, m.e') && forall i, j :: Takes(pathsA, m.e, i) && Takes(pathsB, m.e', j) ==>
              !PathsAgree(q.mode, pathsA[i], pathsB[j], regions, m.e, m.e', m.init)
  {
    hide CountPaths, Sat, PathsAgree, AllEqual, SameInput, Summarizes;
    var m := decide(q);
    forall i, j | Takes(pathsA, m.e, i) && Takes(pathsB, m.e', j)
      ensures !PathsAgree(q.mode, pathsA[i], pathsB[j], regions, m.e, m.e', m.init)
    {
      QueryMeaning(q, pathsA, pathsB, regions, m.e, m.e', m.init, i, j);
    }
  }

  // ----- what the verdict says about the machine -----

  /** A cell as the byte an observer sees; a stored pointer shows as its identity. No observable
      region has lost bytes. */
  function ByteView(canon: Region -> u64, c: Cell): (b: u8) {
    match c
    case Raw(b) => b
    case Frag(r, off, k) => ByteOf(CanonBits(canon, r, off), k)
    case Lost => 0
  }

  lemma FinalBytes(canon: Region -> u64, m: SMem, c: CMem, env: Env, r: Region, a: u64)
    requires MemRel(canon, m, c, env) && !r.IsStack()
    ensures !CellAt(c, env, r, a).Lost? && At(m.Arr(r), a, env) == ByteView(canon, CellAt(c, env, r, a))
  {
    hide Eval, At, CanonBits, ByteOf;
    assert CellRel(r, CellAt(c, env, r, a), ViewAt(m, env, r, a));
    var sh := m.ShadowOf(r);
    assert ShadowOk(sh) && SpelledOut(canon, m, env, r);
    if o: u64 :| Covers(sh, o, a) {
      ViewOfSlot(m, env, r, o, a);
      assert At(m.Arr(r), o + (a - o), env) == ByteOf(CanonBits(canon, sh[o].r, Eval(sh[o].off, env)), a - o);
    }
  }

  ghost predicate SameBytes(canon: Region -> u64, m: CMem, e: Env, m': CMem, e': Env, r: Region) {
    forall a: u64 :: ByteView(canon, CellAt(m, e, r, a)) == ByteView(canon, CellAt(m', e', r, a))
  }

  /** The context, kernel memory, every global and every map value hold the same bytes. */
  ghost predicate SameMemory(canon: Region -> u64, m: CMem, e: Env, m': CMem, e': Env) {
    && SameBytes(canon, m, e, m', e', Ctx)
    && SameBytes(canon, m, e, m', e', Kmem)
    && (forall name: Name :: SameBytes(canon, m, e, m', e', Global(name)))
    && (forall hid: nat, name: Name, idx: nat :: SameBytes(canon, m, e, m', e', MapVal(hid, name, idx)))
  }

  /** Observable is whatever holds bytes and is not a stack frame. */
  lemma ObservableIff(r: Region)
    ensures r.Observable() <==> r.HasBytes() && !r.IsStack()
    ensures r.Observable() <==> r.Ctx? || r.Kmem? || r.Global? || r.MapVal?
    ensures r.HasBytes() <==> !r.MapHandle? && !r.FuncPtr?
    ensures r.IsStack() <==> r.Stack? || r.CbStack?
    ensures r.TakesPointers() <==> r.HasBytes() && !r.Ctx?
    ensures r.Initial() == if r.Stack? || r.CbStack? then Stack(0) else r
  {
  }

  /** Equal, or equal in the low 32 bits, or not compared. */
  ghost predicate SameReturn(mode: RetMode, x: u64, y: u64) {
    (mode == FullRet ==> x == y) && (mode == LowHalf ==> x % 0x1_0000_0000 == y % 0x1_0000_0000)
  }

  /** The two runs are given the same helper answers, the same lookup results and the same initial memory. */
  lemma SameInputMeans(e: Env, e': Env, hid: nat, idx: nat, r: Region, a: u64)
    requires SameInput(e, e')
    ensures e.oracle(hid, idx) == e'.oracle(hid, idx) && e.isNull(hid, idx) == e'.isNull(hid, idx)
    ensures e.init(r, a) == e'.init(r, a)
  {
  }

  /** Same return value as far as it is compared and defined, same observable memory, same side
      effects in the same order. */
  ghost predicate SameOutcome(canon: Region -> u64, mode: RetMode, s: CState, e: Env, s': CState, e': Env)
    requires s.Halted? && s'.Halted?
  {
    && (s.ret.Data? && s'.ret.Data? ==> SameReturn(mode, s.ret.v, s'.ret.v))
    && SameMemory(canon, s.finalMem, e, s'.finalMem, e')
    && s.trail == s'.trail
  }

  /** Both runs leave a value in r0, or none is compared. */
  predicate Returned(mode: RetMode, s: CState, s': CState)
    requires s.Halted? && s'.Halted?
  {
    mode == NoRet || !(s.ret.Undef? || s'.ret.Undef?)
  }

  /** One program, as far as a run is concerned. */
  datatype Entry = Entry(prog: Program, sec: Name, pc: int)

  ghost predicate RunsAgree(canon: Region -> u64, mode: RetMode, a: Entry, b: Entry, env: Env) {
    exists k: nat, k': nat ::
      var s, s' := Run(a.prog, canon, env, a.sec, a.pc, k), Run(b.prog, canon, env, b.sec, b.pc, k');
      s.Trapped? || s'.Trapped? || (s.Halted? && s'.Halted? && SameOutcome(canon, mode, s, env, s', env))
  }

  /** Every observable region a path wrote is among those compared. */
  predicate Listed(paths: seq<Path>, regions: seq<Region>) {
    forall i, r :: 0 <= i < |paths| && r in paths[i].mem.arrs && r.Observable() ==> r in regions
  }

  predicate LoopFreeLogs(paths: seq<Path>) {
    forall i :: 0 <= i < |paths| ==> LoopFree(paths[i].log)
  }

  predicate UnknownTripLogs(paths: seq<Path>) {
    forall i :: 0 <= i < |paths| ==> UnknownTrips(paths[i].log)
  }

  predicate SizedLogs(paths: seq<Path>) {
    forall i :: 0 <= i < |paths| ==> SizedLog(paths[i].log)
  }

  lemma RecordedSized(log: seq<SEvent>, env: Env)
    requires SizedLog(log)
    ensures Sized(Recorded(log, env))
  {
    forall v | v in Recorded(log, env)
      ensures v.hid < 256 && |v.payload| < 0x1_0000
    {
      var i :| 0 <= i < |log| && Recorded(log, env)[i] == v;
    }
  }

  ghost predicate SameTraces(p: Path, q: Path, e: Env, e': Env, init: nat -> u8) {
    forall a: nat :: TraceAt(TraceOf(p.log), e, init, a) == TraceAt(TraceOf(q.log), e', init, a)
  }

  lemma TracesCompared(p: Path, q: Path, e: Env, e': Env)
    requires SizedLog(p.log) && SizedLog(q.log)
    ensures (forall init :: SameTraces(p, q, e, e', init)) <==> Recorded(p.log, e) == Recorded(q.log, e')
  {
    hide TraceAt, TraceOf;
    var xs, ys := Recorded(p.log, e), Recorded(q.log, e');
    RecordedSized(p.log, e);
    RecordedSized(q.log, e');
    TraceComparisonExact(xs, ys);
    forall init: nat -> u8, a: nat
      ensures TraceAt(TraceOf(p.log), e, init, a) == Overlay(EncodeAll(xs), init, a)
      ensures TraceAt(TraceOf(q.log), e', init, a) == Overlay(EncodeAll(ys), init, a)
    {
      TraceIsEncoding(p.log, e, init, a);
      TraceIsEncoding(q.log, e', init, a);
    }
    hide EncodeAll, Recorded, Overlay;
    if forall init :: SameTraces(p, q, e, e', init) {
      forall init: nat -> u8, a: nat
        ensures Overlay(EncodeAll(xs), init, a) == Overlay(EncodeAll(ys), init, a)
      {
        assert SameTraces(p, q, e, e', init);
      }
    }
    if xs == ys {
      forall init: nat -> u8
        ensures SameTraces(p, q, e, e', init)
      {
      }
    }
  }

  /** Only observable regions are compared, and every one a path wrote is. */
  predicate Compared(paths: seq<Path>, regions: seq<Region>) {
    Listed(paths, regions) && forall i :: 0 <= i < |regions| ==> regions[i].Observable()
  }

  ghost predicate SameRegions(p: Path, q: Path, regions: seq<Region>, e: Env, e': Env) {
    forall i, a: u64 :: 0 <= i < |regions| ==> At(p.mem.Arr(regions[i]), a, e) == At(q.mem.Arr(regions[i]), a, e')
  }

  /** The compared regions agree exactly when all observable memory does. */
  lemma MemoryIff(canon: Region -> u64, p: Path, q: Path, regions: seq<Region>, c: CMem, e: Env, c': CMem, e': Env)
    requires MemRel(canon, p.mem, c, e) && MemRel(canon, q.mem, c', e') && SameInput(e, e')
    requires Compared([p], regions) && Compared([q], regions)
    ensures SameRegions(p, q, regions, e, e') <==> SameMemory(canon, c, e, c', e')
  {
    hide Eval, MemRel, ByteView, CellAt;
    forall r: Region, a: u64 | r.Observable()
      ensures At(p.mem.Arr(r), a, e) == ByteView(canon, CellAt(c, e, r, a))
      ensures At(q.mem.Arr(r), a, e') == ByteView(canon, CellAt(c', e', r, a))
      ensures r !in regions ==> At(p.mem.Arr(r), a, e) == At(q.mem.Arr(r), a, e')
    {
      FinalBytes(canon, p.mem, c, e, r, a);
      FinalBytes(canon, q.mem, c', e', r, a);
      assert r in p.mem.arrs ==> r in [p][0].mem.arrs;
      assert r in q.mem.arrs ==> r in [q][0].mem.arrs;
    }
    hide At;
    if SameRegions(p, q, regions, e, e') {
      forall r: Region, a: u64 | r.Observable()
        ensures ByteView(canon, CellAt(c, e, r, a)) == ByteView(canon, CellAt(c', e', r, a))
      {
        if r in regions {
          var i :| 0 <= i < |regions| && regions[i] == r;
          assert At(p.mem.Arr(regions[i]), a, e) == At(q.mem.Arr(regions[i]), a, e');
        }
      }
    }
    if SameMemory(canon, c, e, c', e') {
      forall i, a: u64 | 0 <= i < |regions|
        ensures At(p.mem.Arr(regions[i]), a, e) == At(q.mem.Arr(regions[i]), a, e')
      {
        var r := regions[i];
        assert r.Observable();
        assert SameBytes(canon, c, e, c', e', r) by { hide SameBytes; }
      }
    }
  }

  lemma ReturnIff(mode: RetMode, p: Path, q: Path, s: CState, e: Env, s': CState, e': Env)
    requires s.Halted? && s'.Halted? && ValRel(SData(p.ret), s.ret, e) && ValRel(SData(q.ret), s'.ret, e')
    ensures RetEq(mode, Eval(p.ret, e), Eval(q.ret, e')) ==>
              (s.ret.Data? && s'.ret.Data? ==> SameReturn(mode, s.ret.v, s'.ret.v))
    ensures Returned(mode, s, s') && (s.ret.Data? && s'.ret.Data? ==> SameReturn(mode, s.ret.v, s'.ret.v)) ==>
              RetEq(mode, Eval(p.ret, e), Eval(q.ret, e'))
  {
    hide Eval;
  }

  /** The paths agree, whatever the trace array held before. */
  ghost predicate PathsMatch(mode: RetMode, p: Path, q: Path, regions: seq<Region>, e: Env, e': Env) {
    forall init: nat -> u8 :: PathsAgree(mode, p, q, regions, e, e', init)
  }

  lemma PathsMatchMeans(mode: RetMode, p: Path, q: Path, regions: seq<Region>, e: Env, e': Env)
    requires SizedLog(p.log) && SizedLog(q.log)
    ensures PathsMatch(mode, p, q, regions, e, e') <==>
            && RetEq(mode, Eval(p.ret, e), Eval(q.ret, e')) && SameRegions(p, q, regions, e, e')
            && Recorded(p.log, e) == Recorded(q.log, e')
  {
    hide Eval, At, TraceAt, TraceOf, RetEq, Recorded;
    TracesCompared(p, q, e, e');
    if PathsMatch(mode, p, q, regions, e, e') {
      var zero := (k: nat) => 0;
      assert PathsAgree(mode, p, q, regions, e, e', zero);
      forall init: nat -> u8
        ensures SameTraces(p, q, e, e', init)
      {
        assert PathsAgree(mode, p, q, regions, e, e', init);
      }
    }
    if (forall init :: SameTraces(p, q, e, e', init)) && RetEq(mode, Eval(p.ret, e), Eval(q.ret, e'))
      && SameRegions(p, q, regions, e, e') {
      forall init: nat -> u8
        ensures PathsAgree(mode, p, q, regions, e, e', init)
      {
        assert SameTraces(p, q, e, e', init);
      }
    }
  }

  /** Of two halting runs and the paths that describe them: matching paths mean the same outcome; and if
      what is compared was returned, the paths match exactly when the outcome is the same and the loop
      records agree. */
  lemma OutcomeIff(canon: Region -> u64, mode: RetMode, p: Path, q: Path, regions: seq<Region>,
                   s: CState, e: Env, s': CState, e': Env)
    requires SameInput(e, e') && Sat(p.conds, e) && Sat(q.conds, e') && SizedLog(p.log) && SizedLog(q.log)
    requires s.Halted? && s'.Halted? && Finishes(canon, p, s, e) && Finishes(canon, q, s', e')
    requires Compared([p], regions) && Compared([q], regions)
    ensures PathsMatch(mode, p, q, regions, e, e') ==>
              SameOutcome(canon, mode, s, e, s', e') && SameLoopRecords(p.log, q.log, e, e')
    ensures Returned(mode, s, s') && SameOutcome(canon, mode, s, e, s', e') && SameLoopRecords(p.log, q.log, e, e') ==>
              PathsMatch(mode, p, q, regions, e, e')
  {
    hide Sat, MemRel, LogRel, RetEq, SameReturn, Eval, PathsMatch, SameRegions, SameMemory, SameLoopRecords, Compared,
         Returned, ValRel, Recorded;
    PathsMatchMeans(mode, p, q, regions, e, e');
    MemoryIff(canon, p, q, regions, s.finalMem, e, s'.finalMem, e');
    RecordedIff(p.log, s.trail, e, q.log, s'.trail, e');
    ReturnIff(mode, p, q, s, e, s', e');
  }

  /** Verdict soundness: if the folded summaries of two exactly described programs agree on every
      input, then so do the programs. */
  lemma EquivIsSound(canon: Region -> u64, mode: RetMode, a: Entry, pathsA: seq<Path>, b: Entry, pathsB: seq<Path>,
                     regions: seq<Region>, env: Env)
    requires Exact(a.prog, canon, a.sec, a.pc, pathsA) && Exact(b.prog, canon, b.sec, b.pc, pathsB)
    requires AlwaysAgree(mode, pathsA, pathsB, regions)
    requires Compared(pathsA, regions) && Compared(pathsB, regions) && SizedLogs(pathsA) && SizedLogs(pathsB)
    ensures RunsAgree(canon, mode, a, b, env)
  {
    hide CountPaths, Run;
    var i := SomeTaken(pathsA, env);
    var j := SomeTaken(pathsB, env);
    var p, q := pathsA[i], pathsB[j];
    assert Takes(pathsA, env, i) && Takes(pathsB, env, j) && SameInput(env, env);
    assert EndsAt(a.prog, canon, a.sec, a.pc, p, env) && EndsAt(b.prog, canon, b.sec, b.pc, q, env);
    var k: nat :| Finishes(canon, p, Run(a.prog, canon, env, a.sec, a.pc, k), env);
    var k': nat :| Finishes(canon, q, Run(b.prog, canon, env, b.sec, b.pc, k'), env);
    var s, s' := Run(a.prog, canon, env, a.sec, a.pc, k), Run(b.prog, canon, env, b.sec, b.pc, k');
    if !s.Trapped? && !s'.Trapped? {
      ComparedOne(pathsA, regions, i);
      ComparedOne(pathsB, regions, j);
      TakenMatch(mode, pathsA, pathsB, regions, env, i, j);
      hide AlwaysAgree, PathsMatch, Compared;
      OutcomeIff(canon, mode, p, q, regions, s, env, s', env);
    }
  }

  lemma TakenMatch(mode: RetMode, pathsA: seq<Path>, pathsB: seq<Path>, regions: seq<Region>, env: Env, i: int, j: int)
    requires AlwaysAgree(mode, pathsA, pathsB, regions) && Takes(pathsA, env, i) && Takes(pathsB, env, j)
    ensures PathsMatch(mode, pathsA[i], pathsB[j], regions, env, env)
  {
    hide CountPaths, Sat, PathsAgree;
    assert SameInput(env, env);
  }

  lemma ComparedOne(paths: seq<Path>, regions: seq<Region>, i: int)
    requires Compared(paths, regions) && 0 <= i < |paths|
    ensures Compared([paths[i]], regions)
  {
  }

  // ----- the other direction -----

  /** A run that has halted stays halted. */
  lemma {:induction false} HaltedStays(a: Entry, canon: Region -> u64, env: Env, k: nat, n: nat)
    requires !Run(a.prog, canon, env, a.sec, a.pc, k).Running? && k <= n
    ensures Run(a.prog, canon, env, a.sec, a.pc, n) == Run(a.prog, canon, env, a.sec, a.pc, k)
    decreases n
  {
    if k < n { HaltedStays(a, canon, env, k, n - 1); }
  }

  /** However long a halting run is watched, it ends as its path says. */
  lemma HaltedFinishes(a: Entry, canon: Region -> u64, paths: seq<Path>, env: Env, i: int, k: nat)
    requires Exact(a.prog, canon, a.sec, a.pc, paths) && Takes(paths, env, i)
    requires Run(a.prog, canon, env, a.sec, a.pc, k).Halted?
    ensures Finishes(canon, paths[i], Run(a.prog, canon, env, a.sec, a.pc, k), env)
  {
    hide CountPaths, Run, MemRel, LogRel, ValRel;
    assert EndsAt(a.prog, canon, a.sec, a.pc, paths[i], env);
    var n: nat :| Finishes(canon, paths[i], Run(a.prog, canon, env, a.sec, a.pc, n), env);
    if n <= k { HaltedStays(a, canon, env, n, k); } else { HaltedStays(a, canon, env, k, n); }
  }

  /** For the paths two inputs take, and halting runs on them that return what is compared: the paths
      agree exactly when the outcomes are the same and the loop records are. */
  lemma InequivIsReal(canon: Region -> u64, mode: RetMode, a: Entry, pathsA: seq<Path>, b: Entry, pathsB: seq<Path>,
                      regions: seq<Region>, e: Env, e': Env, i: int, j: int, k: nat, k': nat)
    requires Exact(a.prog, canon, a.sec, a.pc, pathsA) && Exact(b.prog, canon, b.sec, b.pc, pathsB)
    requires Compared(pathsA, regions) && Compared(pathsB, regions) && SizedLogs(pathsA) && SizedLogs(pathsB)
    requires SameInput(e, e') && Takes(pathsA, e, i) && Takes(pathsB, e', j)
    requires var s, s' := Run(a.prog, canon, e, a.sec, a.pc, k), Run(b.prog, canon, e', b.sec, b.pc, k');
             s.Halted? && s'.Halted? && Returned(mode, s, s')
    ensures var s, s' := Run(a.prog, canon, e, a.sec, a.pc, k), Run(b.prog, canon, e', b.sec, b.pc, k');
            PathsMatch(mode, pathsA[i], pathsB[j], regions, e, e') <==>
            SameOutcome(canon, mode, s, e, s', e') && SameLoopRecords(pathsA[i].log, pathsB[j].log, e, e')
  {
    hide CountPaths, Run, PathsMatch, SameOutcome, SameLoopRecords, Compared, Finishes, Exact, Returned;
    HaltedFinishes(a, canon, pathsA, e, i, k);
    HaltedFinishes(b, canon, pathsB, e', j, k');
    ComparedOne(pathsA, regions, i);
    ComparedOne(pathsB, regions, j);
    OutcomeIff(canon, mode, pathsA[i], pathsB[j], regions, Run(a.prog, canon, e, a.sec, a.pc, k), e,
               Run(b.prog, canon, e', b.sec, b.pc, k'), e');
  }

  /** Some run traps, leaves a compared r0 undefined, or the outcomes or the loop records differ. */
  ghost predicate Distinguished(canon: Region -> u64, mode: RetMode, a: Entry, p: Path, e: Env, b: Entry, q: Path,
                                e': Env) {
    exists k: nat, k': nat ::
      var s, s' := Run(a.prog, canon, e, a.sec, a.pc, k), Run(b.prog, canon, e', b.sec, b.pc, k');
      || s.Trapped? || s'.Trapped?
      || (s.Halted? && s'.Halted? &&
            !(Returned(mode, s, s') && SameOutcome(canon, mode, s, e, s', e') && SameLoopRecords(p.log, q.log, e, e')))
  }

  /** The same without recourse to the loop records. */
  ghost predicate RunsDiffer(canon: Region -> u64, mode: RetMode, a: Entry, e: Env, b: Entry, e': Env) {
    exists k: nat, k': nat ::
      var s, s' := Run(a.prog, canon, e, a.sec, a.pc, k), Run(b.prog, canon, e', b.sec, b.pc, k');
      || s.Trapped? || s'.Trapped?
      || (s.Halted? && s'.Halted? && !(Returned(mode, s, s') && SameOutcome(canon, mode, s, e, s', e')))
  }

  /** Loop records that carry no trip count are all the same. */
  lemma SameTrips(log: seq<SEvent>, log': seq<SEvent>, e: Env, e': Env)
    requires LoopFree(log) || (UnknownTrips(log) && UnknownTrips(log'))
    ensures SameLoopRecords(log, log', e, e')
  {
    var bs := [0] + LeBytes(0xFFFF_FFFF, 4);
    EvalConstBytes(bs, e);
    EvalConstBytes(bs, e');
    hide Eval, EvalBytes, ConstBytes, LeBytes;
  }

  /** Paths that disagree are distinguished by their runs; unless a loop record carries a trip count, by their
      outcomes. */
  lemma Distinguishes(canon: Region -> u64, mode: RetMode, a: Entry, pathsA: seq<Path>, b: Entry, pathsB: seq<Path>,
                      regions: seq<Region>, e: Env, e': Env, i: int, j: int)
    requires Exact(a.prog, canon, a.sec, a.pc, pathsA) && Exact(b.prog, canon, b.sec, b.pc, pathsB)
    requires Compared(pathsA, regions) && Compared(pathsB, regions) && SizedLogs(pathsA) && SizedLogs(pathsB)
    requires SameInput(e, e') && Takes(pathsA, e, i) && Takes(pathsB, e', j)
    requires !PathsMatch(mode, pathsA[i], pathsB[j], regions, e, e')
    ensures Distinguished(canon, mode, a, pathsA[i], e, b, pathsB[j], e')
    ensures LoopFree(pathsA[i].log) || (UnknownTrips(pathsA[i].log) && UnknownTrips(pathsB[j].log)) ==>
              RunsDiffer(canon, mode, a, e, b, e')
  {
    hide CountPaths, Run, PathsMatch, SameOutcome, Compared;
    var p, q := pathsA[i], pathsB[j];
    assert EndsAt(a.prog, canon, a.sec, a.pc, p, e) && EndsAt(b.prog, canon, b.sec, b.pc, q, e');
    var k: nat :| Finishes(canon, p, Run(a.prog, canon, e, a.sec, a.pc, k), e);
    var k': nat :| Finishes(canon, q, Run(b.prog, canon, e', b.sec, b.pc, k'), e');
    var s, s' := Run(a.prog, canon, e, a.sec, a.pc, k), Run(b.prog, canon, e', b.sec, b.pc, k');
    if s.Halted? && s'.Halted? && Returned(mode, s, s') {
      InequivIsReal(canon, mode, a, pathsA, b, pathsB, regions, e, e', i, j, k, k');
      if LoopFree(p.log) || (UnknownTrips(p.log) && UnknownTrips(q.log)) { SameTrips(p.log, q.log, e, e'); }
    }
  }

  // ----- a loop record that differs alone -----

  /** A solver that recognises one numeral. */
  function ZeroSolver(): (s: Solver) {
    Solver(cs => true, t => t, c => c, t => if t == Lo32(Const(0)) then Some(0) else None)
  }

  /** About to call bpf_loop, with the trip count in r1. */
  function AtLoop(count: Term): (it: Item) {
    var it := SymStart([], 0);
    it.(regs := it.regs[1 := SData(count)][2 := SPtr(FuncPtr([], 0), Const(0))])
  }

  /** The first byte of the context. */
  const FIRST_BYTE := Select(Base(Ctx), Const(0))

  /** The path that skips the loop and returns 0. */
  function Skipped(conds: seq<Cond>, trips: Option<u64>): (p: Path) {
    Path(conds, Const(0), SMem(map[], map[]), [SEvent(H_LOOP, LoopPayload(trips))])
  }

  const BYTE_IS_ZERO := Compare(CmpEq, W64, Lo32(FIRST_BYTE), Const(0))

  /** The machine there, with a trip count of zero. */
  function MachineAtLoop(): (s: CState)
    ensures s.Running?
  {
    var s := Start([], 0);
    s.(regs := s.regs[1 := Data(0)][2 := Ptr(FuncPtr([], 0), 0)])
  }

  /** The executor's two steps from the call make these paths. */
  lemma SkippedPaths(nc: nat)
    ensures var o, o' := SymLoop(ZeroSolver(), AtLoop(Const(0)), nc), SymLoop(ZeroSolver(), AtLoop(FIRST_BYTE), nc);
            && o.Ok? && o.value.cur.Some? && o'.Ok? && |o'.value.queued| == 1
            && SymExit(ZeroSolver(), o.value.cur.value, nc).Ok? && SymExit(ZeroSolver(), o'.value.queued[0], nc).Ok?
            && SymExit(ZeroSolver(), o.value.cur.value, nc).value.done == [Skipped([], Some(0))]
            && SymExit(ZeroSolver(), o'.value.queued[0], nc).value.done == [Skipped([BYTE_IS_ZERO], None)]
  {
    hide LoopPayload, SymCallbackRegs;
    var it, it' := AtLoop(Const(0)), AtLoop(FIRST_BYTE);
    var next := SymLoop(ZeroSolver(), it, nc).value.cur.value;
    var next' := SymLoop(ZeroSolver(), it', nc).value.queued[0];
    assert next.log == [SEvent(H_LOOP, LoopPayload(Some(0)))] && next.conds == [];
    assert next'.log == [SEvent(H_LOOP, LoopPayload(None))] && next'.conds == [BYTE_IS_ZERO];
    assert next.regs[0] == SData(Const(0)) && next'.regs[0] == SData(Const(0));
    hide SymLoop;
  }

  /** A trip count of zero is skipped on the machine too. */
  lemma SkippedRun()
    ensures StepLoop(MachineAtLoop()).Running?
    ensures StepExit(StepLoop(MachineAtLoop())) == Halted(Data(0), map[], [Event(H_LOOP, [])])
  {
  }

  lemma SkippedDescribed(canon: Region -> u64, conds: seq<Cond>, trips: Option<u64>, e: Env)
    ensures Finishes(canon, Skipped(conds, trips), Halted(Data(0), map[], [Event(H_LOOP, [])]), e)
    ensures SizedLog(Skipped(conds, trips).log)
  {
    InitialMemory(canon, e);
    ConstValue(0, e);
    hide MemRel, EvalBytes, Eval, Sat;
    assert LogRel(Skipped(conds, trips).log, [Event(H_LOOP, [])], e);
  }

  lemma SkippedRecords(c: seq<Cond>, c': seq<Cond>, e: Env)
    ensures !SameLoopRecords(Skipped(c, Some(0)).log, Skipped(c', None).log, e, e)
  {
    LoopPayloadsDiffer(e);
    hide EvalBytes, LoopPayload;
    var log, log' := Skipped(c, Some(0)).log, Skipped(c', None).log;
    assert log[0].hid == H_LOOP && log'[0].hid == H_LOOP;
  }

  lemma ByteIsZero(e: Env)
    requires e.init(Ctx, 0) == 0
    ensures Sat([BYTE_IS_ZERO], e)
  {
  }

  lemma ZeroSolverSound()
    ensures ZeroSolver().Sound()
  {
  }

  lemma LoopPayloadsDiffer(env: Env)
    ensures EvalBytes(LoopPayload(Some(0)), env) != EvalBytes(LoopPayload(None), env)
  {
    var bs, cs := [0] + LeBytes(0, 4), [0] + LeBytes(0xFFFF_FFFF, 4);
    assert bs[1] == 0 && cs[1] == 255;
    assert LoopPayload(Some(0))[1] == Const(0) && LoopPayload(None)[1] == Const(255);
    ConstValue(0, env);
    ConstValue(255, env);
    hide Eval;
    assert EvalBytes(LoopPayload(Some(0)), env)[1] == 0;
    assert EvalBytes(LoopPayload(None), env)[1] == 255;
  }

  /** One program calls bpf_loop with the numeral 0, the other with a context byte that is 0. One and the
      same halted machine is described by both paths, so the outcome is the same; the loop records, and
      with them the paths, differ. */
  lemma LoopRecordAlone(canon: Region -> u64, mode: RetMode, e: Env)
    requires e.init(Ctx, 0) == 0
    ensures var p, q, s := Skipped([], Some(0)), Skipped([BYTE_IS_ZERO], None),
              Halted(Data(0), map[], [Event(H_LOOP, [])]);
            && Sat(p.conds, e) && Sat(q.conds, e) && Finishes(canon, p, s, e) && Finishes(canon, q, s, e)
            && SameOutcome(canon, mode, s, e, s, e) && Returned(mode, s, s)
            && !SameLoopRecords(p.log, q.log, e, e) && !PathsMatch(mode, p, q, [Ctx, Kmem], e, e)
  {
    hide Finishes, SameLoopRecords, PathsMatch, SizedLog, CellAt, ByteView;
    var p, q := Skipped([], Some(0)), Skipped([BYTE_IS_ZERO], None);
    SkippedDescribed(canon, [], Some(0), e);
    SkippedDescribed(canon, [BYTE_IS_ZERO], None, e);
    SkippedRecords([], [BYTE_IS_ZERO], e);
    ByteIsZero(e);
    assert Compared([p], [Ctx, Kmem]) && Compared([q], [Ctx, Kmem]);
    var s := Halted(Data(0), map[], [Event(H_LOOP, [])]);
    hide Skipped, Sat, Compared;
    OutcomeIff(canon, mode, p, q, [Ctx, Kmem], s, e, s, e);
  }

  // ----- the whole check -----

  /** The observable regions two sets of paths wrote, on top of those always compared. */
  method ObservableRegions(paths: seq<Path>, start: seq<Region>) returns (regions: seq<Region>)
    ensures Listed(paths, regions) && start <= regions
    ensures forall r :: r in regions ==> r in start || r.Observable()
  {
    regions := start;
    var i := 0;
    while i < |paths|
      invariant 0 <= i <= |paths| && start <= regions && Listed(paths[..i], regions)
      invariant forall r :: r in regions ==> r in start || r.Observable()
    {
      var left := paths[i].mem.arrs.Keys;
      ghost var before := regions;
      while left != {}
        invariant before <= regions && forall r :: r in regions ==> r in start || r.Observable()
        invariant forall r :: r in paths[i].mem.arrs && r !in left && r.Observable() ==> r in regions
        decreases left
      {
        var r :| r in left;
        if r.Observable() { regions := regions + [r]; }
        left := left - {r};
      }
      assert forall r :: r in before ==> r in regions;
      i := i + 1;
    }
    assert paths[..|paths|] == paths;
  }

  lemma ListedMore(paths: seq<Path>, regions: seq<Region>, more: seq<Region>)
    requires Listed(paths, regions) && regions <= more
    ensures Listed(paths, more)
  {
    assert forall r :: r in regions ==> r in more;
  }

  /** The global variables and the two regions every program has. */
  function AlwaysCompared(globals: seq<Name>): (rs: seq<Region>)
    ensures forall r :: r in rs ==> r.Observable()
  {
    seq(|globals|, i requires 0 <= i < |globals| => Global(globals[i])) + [Ctx, Kmem]
  }

  lemma AllCompared(paths: seq<Path>, regions: seq<Region>, more: seq<Region>)
    requires Listed(paths, regions) && regions <= more && forall r :: r in more ==> r.Observable()
    ensures Compared(paths, more)
  {
    ListedMore(paths, regions, more);
    assert forall i :: 0 <= i < |more| ==> more[i] in more;
  }

  /** Runs both programs symbolically and compares them. An equivalence verdict holds on the machine, for
      every input. A difference comes with one input to both: the runs on it differ, or a loop record of
      the paths they take does; without bpf_loop, or if no trip count is ever recorded, the runs differ. */
  method Check(canon: Region -> u64, solver: Solver, decide: Query -> Answer, hasResidue: Query -> bool,
               a: Entry, b: Entry, globals: seq<Name>, retBits: Option<nat>, budget: nat)
    returns (v: Verdict, ghost pathsA: seq<Path>, ghost pathsB: seq<Path>)
    requires solver.Sound() && Truthful(decide) && NamesFit(a.prog) && NamesFit(b.prog)
    ensures v.EQUIV? || v.INEQUIV? ==> ModeFits(v.mode, retBits, pathsA, pathsB)
    ensures v.EQUIV? ==> forall env :: RunsAgree(canon, v.mode, a, b, env)
    ensures v.EQUIV32? ==>
              ModeFits(FullRet, retBits, pathsA, pathsB) && forall env :: RunsAgree(canon, LowHalf, a, b, env)
    ensures v.INEQUIV? ==>
              && SameInput(v.e, v.e')
              && forall i, j :: Takes(pathsA, v.e, i) && Takes(pathsB, v.e', j) ==>
                   Distinguished(canon, v.mode, a, pathsA[i], v.e, b, pathsB[j], v.e')
    ensures v.UNKNOWN? ==> exists q :: decide(q).Unknown?
    ensures v.BAIL? ==>
              || Refused(a.prog, canon, solver, a.sec, a.pc, budget)
              || Refused(b.prog, canon, solver, b.sec, b.pc, budget)
              || exists q :: hasResidue(q) && decide(q).Model?
    ensures !v.BAIL? ==> Exact(a.prog, canon, a.sec, a.pc, pathsA) && Exact(b.prog, canon, b.sec, b.pc, pathsB)
    ensures v.INEQUIV? && (NoLoops(a.prog) || NoNumerals(solver)) ==> RunsDiffer(canon, v.mode, a, v.e, b, v.e')
  {
    hide SymStep, Step, Exact, Refused, ModeFits, AlwaysAgree, RunsAgree, Distinguished, RunsDiffer, PathsAgree,
         CountPaths;
    pathsA, pathsB := [], [];
    var ea := new Executor(a.prog, canon, solver);
    var okA := ea.Run(a.sec, a.pc, budget);
    if !okA { return BAIL, [], []; }
    var eb := new Executor(b.prog, canon, solver);
    var okB := eb.Run(b.sec, b.pc, budget);
    if !okB { return BAIL, [], []; }
    var some := ObservableRegions(ea.paths, AlwaysCompared(globals));
    var regions := ObservableRegions(eb.paths, some);
    pathsA, pathsB := ea.paths, eb.paths;
    AllCompared(pathsA, some, regions);
    AllCompared(pathsB, regions, regions);
    v := CheckProgram(ea.paths, eb.paths, regions, retBits, decide, hasResidue);
    hide Compared;
    if v.EQUIV? || v.EQUIV32? {
      var mode := if v.EQUIV? then v.mode else LowHalf;
      forall env
        ensures RunsAgree(canon, mode, a, b, env)
      {
        EquivIsSound(canon, mode, a, pathsA, b, pathsB, regions, env);
      }
    } else if v.INEQUIV? {
      Inequivalent(canon, v.mode, a, pathsA, b, pathsB, regions, v.e, v.e', v.init);
    }
  }

  lemma Inequivalent(canon: Region -> u64, mode: RetMode, a: Entry, pathsA: seq<Path>, b: Entry, pathsB: seq<Path>,
                     regions: seq<Region>, e: Env, e': Env, init: nat -> u8)
    requires Exact(a.prog, canon, a.sec, a.pc, pathsA) && Exact(b.prog, canon, b.sec, b.pc, pathsB)
    requires Compared(pathsA, regions) && Compared(pathsB, regions) && SizedLogs(pathsA) && SizedLogs(pathsB)
    requires SameInput(e, e')
    requires forall i, j :: Takes(pathsA, e, i) && Takes(pathsB, e', j) ==>
               !PathsAgree(mode, pathsA[i], pathsB[j], regions, e, e', init)
    ensures forall i, j :: Takes(pathsA, e, i) && Takes(pathsB, e', j) ==>
              Distinguished(canon, mode, a, pathsA[i], e, b, pathsB[j], e')
    ensures LoopFreeLogs(pathsA) || (UnknownTripLogs(pathsA) && UnknownTripLogs(pathsB)) ==>
              RunsDiffer(canon, mode, a, e, b, e')
  {
    hide PathsAgree, Compared, Distinguished, RunsDiffer, CountPaths, Ends;
    forall i, j | Takes(pathsA, e, i) && Takes(pathsB, e', j)
      ensures Distinguished(canon, mode, a, pathsA[i], e, b, pathsB[j], e')
      ensures LoopFreeLogs(pathsA) || (UnknownTripLogs(pathsA) && UnknownTripLogs(pathsB)) ==>
                RunsDiffer(canon, mode, a, e, b, e')
    {
      assert !PathsAgree(mode, pathsA[i], pathsB[j], regions, e, e', init);
      Distinguishes(canon, mode, a, pathsA, b, pathsB, regions, e, e', i, j);
    }
    var i := SomeTaken(pathsA, e);
    var j := SomeTaken(pathsB, e');
    assert Takes(pathsA, e, i) && Takes(pathsB, e', j);
  }
}
