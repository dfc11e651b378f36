/** Every symbolic step does what the machine's step does, on every input on which it is taken. */
module Simulation {
  import opened Words
  import opened Terms
  import opened Memory
  import opened Machine
  import opened SymbolicStep
  import opened Arithmetic
  import opened Atomics

  // ----- when a path describes a machine state -----

  ghost predicate RegsRel(rs: SRegs, cs: CRegs, env: Env) {
    forall i :: 0 <= i < 11 ==> ValRel(rs[i], cs[i], env)
  }

  ghost predicate FrameRel(f: Frame, g: CFrame, env: Env) {
    match f
    case Call(sec, pc, regs) => g.CCall? && sec == g.sec && pc == g.pc && RegsRel(regs, g.regs, env)
    case Loop(csec, entry, i, n, sec, pc, regs, id, arg) =>
      && g.CLoop? && csec == g.csec && entry == g.entry && i == g.i < g.n && Eval(n, env) == g.n
      && sec == g.sec && pc == g.pc && RegsRel(regs, g.regs, env) && id == g.id && ValRel(arg, g.arg, env)
  }

  ghost predicate StackRel(fs: seq<Frame>, gs: seq<CFrame>, env: Env) {
    |fs| == |gs| && forall i :: 0 <= i < |fs| ==> FrameRel(fs[i], gs[i], env)
  }

  ghost function EvalBytes(ts: seq<Term>, env: Env): (bs: seq<u8>)
    ensures |bs| == |ts|
    ensures forall i :: 0 <= i < |ts| ==> bs[i] == Eval(ts[i], env) % 256
  {
    seq(|ts|, i requires 0 <= i < |ts| => Eval(ts[i], env) % 256)
  }

  /** The event a record stands for; the record of a loop carries more than the event. */
  ghost predicate EventRel(e: SEvent, v: Event, env: Env) {
    v == Event(e.hid, if e.hid == H_LOOP then [] else EvalBytes(e.payload, env))
  }

  ghost predicate LogRel(log: seq<SEvent>, events: seq<Event>, env: Env) {
    |log| == |events| && forall i :: 0 <= i < |log| ==> EventRel(log[i], events[i], env)
  }

  ghost predicate Describes(canon: Region -> u64, it: Item, s: CState, env: Env) {
    && s.Running? && it.sec == s.sec && it.pc == s.pc && it.counters == s.counters
    && RegsRel(it.regs, s.regs, env) && MemRel(canon, it.mem, s.mem, env)
    && StackRel(it.stack, s.stack, env) && LogRel(it.log, s.events, env)
  }

  /** Paths are silent about runs that trapped. */
  ghost predicate Follows(canon: Region -> u64, it: Item, s: CState, env: Env) {
    Sat(it.conds, env) ==> s.Trapped? || Describes(canon, it, s, env)
  }

  ghost predicate Finishes(canon: Region -> u64, p: Path, s: CState, env: Env) {
    Sat(p.conds, env) ==>
      || s.Trapped?
      || (s.Halted? && ValRel(SData(p.ret), s.ret, env) && MemRel(canon, p.mem, s.finalMem, env)
          && LogRel(p.log, s.trail, env))
  }

  ghost predicate OutFollows(canon: Region -> u64, o: Out, s: CState, env: Env) {
    && (o.cur.Some? ==> Follows(canon, o.cur.value, s, env))
    && (forall i :: 0 <= i < |o.queued| ==> Follows(canon, o.queued[i], s, env))
    && (forall i :: 0 <= i < |o.done| ==> Finishes(canon, o.done[i], s, env))
  }

  // ----- pieces -----

  lemma RegsSet(rs: SRegs, cs: CRegs, env: Env, d: nat, v: SVal, c: CVal)
    requires RegsRel(rs, cs, env) && d < 11 && ValRel(v, c, env)
    ensures RegsRel(rs[d := v], cs[d := c], env)
  {
    hide ValRel;
  }

  lemma RegsClobbered(rs: SRegs, cs: CRegs, env: Env, v: SVal, c: CVal, nc: nat)
    requires RegsRel(rs, cs, env) && ValRel(v, c, env)
    ensures RegsRel(SymClobbered(rs, v, nc), Clobbered(cs, c), env)
  {
    hide EvalVal;
  }

  lemma DisplaceAgrees(p: SVal, q: CVal, k: int, env: Env)
    requires ValRel(p, q, env)
    ensures ValRel(SymDisplace(p, k), Displace(q, k), env)
  {
    hide EvalBin;
    var t := if p.SPtr? then p.off else p.t;
    AddWords(Eval(t, env), k % TWO64);
    assert Eval(Plus(t, k), env) == EvalBin(OpAdd, W64, Eval(t, env), k % TWO64);
  }

  lemma OperandAgrees(rs: SRegs, cs: CRegs, o: Operand, wide: bool, env: Env)
    requires RegsRel(rs, cs, env) && ValidOperand(o)
    ensures ValRel(SymOperand(rs, o, wide), OperandValue(cs, o, wide), env)
  {
    hide EvalBin;
  }

  lemma LogSnoc(log: seq<SEvent>, events: seq<Event>, env: Env, e: SEvent, v: Event)
    requires LogRel(log, events, env) && EventRel(e, v, env)
    ensures LogRel(log + [e], events + [v], env)
  {
    hide EventRel;
  }

  lemma StackPush(fs: seq<Frame>, gs: seq<CFrame>, env: Env, f: Frame, g: CFrame)
    requires StackRel(fs, gs, env) && FrameRel(f, g, env)
    ensures StackRel(fs + [f], gs + [g], env)
  {
    hide FrameRel;
  }

  lemma StackPop(fs: seq<Frame>, gs: seq<CFrame>, env: Env)
    requires StackRel(fs, gs, env) && fs != []
    ensures StackRel(fs[..|fs| - 1], gs[..|gs| - 1], env) && FrameRel(fs[|fs| - 1], gs[|gs| - 1], env)
  {
    hide FrameRel;
  }

  // ----- straight-line instructions -----

  /** Setting a register keeps the description. */
  lemma SetReg(canon: Region -> u64, it: Item, s: CState, env: Env, pc: int, d: nat, v: SVal, c: CVal)
    requires Describes(canon, it, s, env) && d < 11 && ValRel(v, c, env)
    ensures Describes(canon, it.(pc := pc, regs := it.regs[d := v]), s.(pc := pc, regs := s.regs[d := c]), env)
  {
    hide ValRel, MemRel, StackRel, LogRel, RegsRel;
    RegsSet(it.regs, s.regs, env, d, v, c);
  }

  lemma LdImmStep(canon: Region -> u64, it: Item, s: CState, env: Env, dst: nat, v: Immediate)
    requires Describes(canon, it, s, env) && dst <= 10
    ensures Describes(canon, it.(pc := it.pc + 2, regs := it.regs[dst := SymImmediate(v)]),
                      s.(pc := s.pc + 2, regs := s.regs[dst := ImmediateValue(v)]), env)
  {
    assert ValRel(SymImmediate(v), ImmediateValue(v), env) by { hide EvalBin; }
    SetReg(canon, it, s, env, it.pc + 2, dst, SymImmediate(v), ImmediateValue(v));
  }

  lemma AluStep(prog: Program, canon: Region -> u64, solver: Solver, it: Item, s: CState, env: Env, nc: nat)
    requires Describes(canon, it, s, env) && SymStep(prog, canon, solver, it, nc).Ok?
    requires Fetch(prog, it.sec, it.pc).Some? && Fetch(prog, it.sec, it.pc).value.Alu?
    ensures OutFollows(canon, SymStep(prog, canon, solver, it, nc).value, Step(prog, canon, env, s), env)
  {
    var i := Fetch(prog, it.sec, it.pc).value;
    var operand := if i.code == 8 then SData(Const(0)) else SymOperand(it.regs, i.src, i.is64);
    var coperand := if i.code == 8 then Data(0) else OperandValue(s.regs, i.src, i.is64);
    hide SymAlu, MachineAlu, EvalBin, MemRel, StackRel, LogRel;
    OperandAgrees(it.regs, s.regs, i.src, i.is64, env);
    assert ValRel(operand, coperand, env);
    AluAgrees(i.code, i.is64, i.off, it.regs[i.dst], operand, s.regs[i.dst], coperand, env);
    var v := MachineAlu(i.code, i.is64, i.off, s.regs[i.dst], coperand);
    if v.Fine? {
      SetReg(canon, it, s, env, it.pc + 1, i.dst, SymAlu(i.code, i.is64, i.off, it.regs[i.dst], operand).value,
             v.value);
    }
  }

  lemma LdxStep(prog: Program, canon: Region -> u64, solver: Solver, it: Item, s: CState, env: Env, nc: nat)
    requires solver.Sound() && Describes(canon, it, s, env) && SymStep(prog, canon, solver, it, nc).Ok?
    requires Fetch(prog, it.sec, it.pc).Some? && Fetch(prog, it.sec, it.pc).value.Ldx?
    ensures OutFollows(canon, SymStep(prog, canon, solver, it, nc).value, Step(prog, canon, env, s), env)
  {
    hide SymLoad, MachineLoad, EvalBin, MemRel, StackRel, LogRel, SymDisplace, Displace, SignExtend, Sat;
    var i := Fetch(prog, it.sec, it.pc).value;
    var p, q := SymDisplace(it.regs[i.base], i.off), Displace(s.regs[i.base], i.off);
    DisplaceAgrees(it.regs[i.base], s.regs[i.base], i.off, env);
    LoadAgrees(canon, solver, it.mem, s.mem, env, p, q, i.size);
    var v := MachineLoad(s.mem, env, q, i.size);
    if v.Fine? {
      var sv := SymLoad(solver, it.mem, p, i.size).value;
      if !i.signed || i.size == 8 {
        SetReg(canon, it, s, env, it.pc + 1, i.dst, sv, v.value);
      } else {
        SetReg(canon, it, s, env, it.pc + 1, i.dst, SData(SExt(8 * i.size, sv.t)),
               Data(SignExtend(8 * i.size, v.value.v)));
      }
    }
  }

  lemma StxStep(prog: Program, canon: Region -> u64, solver: Solver, it: Item, s: CState, env: Env, nc: nat)
    requires solver.Sound() && Describes(canon, it, s, env) && SymStep(prog, canon, solver, it, nc).Ok?
    requires Fetch(prog, it.sec, it.pc).Some? && Fetch(prog, it.sec, it.pc).value.Stx?
    ensures OutFollows(canon, SymStep(prog, canon, solver, it, nc).value, Step(prog, canon, env, s), env)
  {
    var i := Fetch(prog, it.sec, it.pc).value;
    var p, q := SymDisplace(it.regs[i.base], i.off), Displace(s.regs[i.base], i.off);
    hide SymStore, MachineStore, EvalBin, MemRel, StackRel, LogRel, SymDisplace, Displace, SymOperand, OperandValue;
    DisplaceAgrees(it.regs[i.base], s.regs[i.base], i.off, env);
    OperandAgrees(it.regs, s.regs, i.src, true, env);
    StoreAgrees(canon, solver, it.mem, s.mem, env, p, q, i.size,
                SymOperand(it.regs, i.src, true), OperandValue(s.regs, i.src, true));
  }

  lemma EndianStep(prog: Program, canon: Region -> u64, solver: Solver, it: Item, s: CState, env: Env, nc: nat)
    requires Describes(canon, it, s, env) && SymStep(prog, canon, solver, it, nc).Ok?
    requires Fetch(prog, it.sec, it.pc).Some? && Fetch(prog, it.sec, it.pc).value.Endian?
    ensures OutFollows(canon, SymStep(prog, canon, solver, it, nc).value, Step(prog, canon, env, s), env)
  {
    hide SymEndian, MachineEndian, EvalBin, MemRel, StackRel, LogRel;
    var i := Fetch(prog, it.sec, it.pc).value;
    EndianAgrees(i.is64, i.toBig, i.width, it.regs[i.dst], s.regs[i.dst], env);
    var v := MachineEndian(i.is64, i.toBig, i.width, s.regs[i.dst]);
    if v.Fine? {
      SetReg(canon, it, s, env, it.pc + 1, i.dst, SymEndian(i.is64, i.toBig, i.width, it.regs[i.dst]).value, v.value);
    }
  }

  /** What an atomic instruction leaves on both sides corresponds. */
  ghost predicate AtomicRel(canon: Region -> u64, r: (SRegs, SMem), c: Access<(CRegs, CMem)>, env: Env) {
    c.Fault? || (c.Fine? && RegsRel(r.0, c.value.0, env) && MemRel(canon, r.1, c.value.1, env))
  }

  /** Loads that acquire and stores that release are loads and stores. */
  lemma OrderedAgrees(canon: Region -> u64, solver: Solver, m: SMem, rs: SRegs, c: CMem, cs: CRegs, env: Env, i: Insn)
    requires solver.Sound() && MemRel(canon, m, c, env) && RegsRel(rs, cs, env) && i.Atomic? && ValidInsn(i)
    requires (i.aop == A_LOAD_ACQ || i.aop == A_STORE_REL) && SymAtomic(canon, solver, m, rs, i).Ok?
    ensures AtomicRel(canon, SymAtomic(canon, solver, m, rs, i).value, MachineAtomic(canon, c, env, cs, i), env)
  {
    hide SymLoad, MachineLoad, SymStore, MachineStore, Eval, MemRel, SymDisplace, Displace;
    if i.aop == A_LOAD_ACQ {
      var p, q := SymDisplace(rs[i.other], i.off), Displace(cs[i.other], i.off);
      DisplaceAgrees(rs[i.other], cs[i.other], i.off, env);
      LoadAgrees(canon, solver, m, c, env, p, q, i.size);
    } else {
      var p, q := SymDisplace(rs[i.dst], i.off), Displace(cs[i.dst], i.off);
      DisplaceAgrees(rs[i.dst], cs[i.dst], i.off, env);
      StoreAgrees(canon, solver, m, c, env, p, q, i.size, rs[i.other], cs[i.other]);
    }
  }

  /** The value an accepted compare-and-exchange stores. */
  lemma ExchangeValue(size: nat, old_: Term, expected: Term, src: Term, env: Env)
    ensures var w := AtomicWidth(size);
            Eval(If(Compare(CmpEq, w, old_, expected), src, old_), env) ==
            if Eval(old_, env) % w.Modulus() == Eval(expected, env) % w.Modulus() then Eval(src, env)
            else Eval(old_, env)
  {
    var same := Compare(CmpEq, AtomicWidth(size), old_, expected);
    IfTerm(same, src, old_, env);
    CompareCond(CmpEq, AtomicWidth(size), old_, expected, env);
    hide Eval, Holds, ToSigned;
  }

  lemma ExchangeAgrees(canon: Region -> u64, solver: Solver, m: SMem, rs: SRegs, c: CMem, cs: CRegs, env: Env, i: Insn)
    requires solver.Sound() && MemRel(canon, m, c, env) && RegsRel(rs, cs, env) && i.Atomic? && ValidInsn(i)
    requires i.aop == A_CMPXCHG && SymAtomic(canon, solver, m, rs, i).Ok?
    ensures AtomicRel(canon, SymAtomic(canon, solver, m, rs, i).value, MachineAtomic(canon, c, env, cs, i), env)
  {
    hide SymLoad, MachineLoad, SymStore, MachineStore, Eval, MemRel, SymDisplace, Displace;
    var p, q := SymDisplace(rs[i.dst], i.off), Displace(cs[i.dst], i.off);
    DisplaceAgrees(rs[i.dst], cs[i.dst], i.off, env);
    LoadAgrees(canon, solver, m, c, env, p, q, i.size);
    var old_ := SymLoad(solver, m, p, i.size).value.t;
    var t := If(Compare(CmpEq, AtomicWidth(i.size), old_, rs[0].t), rs[i.other].t, old_);
    ExchangeValue(i.size, old_, rs[0].t, rs[i.other].t, env);
    StoreAgrees(canon, solver, m, c, env, p, q, i.size, SData(t), Data(Eval(t, env)));
  }

  lemma ReadModifyAgrees(canon: Region -> u64, solver: Solver, m: SMem, rs: SRegs, c: CMem, cs: CRegs, env: Env,
                         i: Insn)
    requires solver.Sound() && MemRel(canon, m, c, env) && RegsRel(rs, cs, env) && i.Atomic? && ValidInsn(i)
    requires i.aop !in {A_LOAD_ACQ, A_STORE_REL, A_CMPXCHG} && SymAtomic(canon, solver, m, rs, i).Ok?
    ensures AtomicRel(canon, SymAtomic(canon, solver, m, rs, i).value, MachineAtomic(canon, c, env, cs, i), env)
  {
    hide SymLoad, MachineLoad, SymStore, MachineStore, Eval, MemRel, SymDisplace, Displace, AtomicTerm, AtomicNew;
    var p, q := SymDisplace(rs[i.dst], i.off), Displace(cs[i.dst], i.off);
    DisplaceAgrees(rs[i.dst], cs[i.dst], i.off, env);
    LoadAgrees(canon, solver, m, c, env, p, q, i.size);
    var old_, src := SymLoad(solver, m, p, i.size).value.t, rs[i.other].t;
    var t := AtomicTerm(i.aop, old_, src).value;
    AtomicTermAgrees(i.aop, i.size, old_, src, env);
    var v := AtomicNew(i.aop, i.size, Eval(old_, env), Eval(src, env)).value;
    SameStore(canon, c, q, i.size, v, Eval(t, env));
    StoreAgrees(canon, solver, m, c, env, p, q, i.size, SData(t), Data(Eval(t, env)));
  }

  /** Atomic instructions, executed alone. */
  lemma AtomicStep(prog: Program, canon: Region -> u64, solver: Solver, it: Item, s: CState, env: Env, nc: nat)
    requires solver.Sound() && Describes(canon, it, s, env) && SymStep(prog, canon, solver, it, nc).Ok?
    requires Fetch(prog, it.sec, it.pc).Some? && Fetch(prog, it.sec, it.pc).value.Atomic?
    ensures OutFollows(canon, SymStep(prog, canon, solver, it, nc).value, Step(prog, canon, env, s), env)
  {
    hide SymAtomic, MachineAtomic, EvalBin, MemRel, RegsRel, StackRel, LogRel;
    var i := Fetch(prog, it.sec, it.pc).value;
    if i.aop == A_LOAD_ACQ || i.aop == A_STORE_REL {
      OrderedAgrees(canon, solver, it.mem, it.regs, s.mem, s.regs, env, i);
    } else if i.aop == A_CMPXCHG {
      ExchangeAgrees(canon, solver, it.mem, it.regs, s.mem, s.regs, env, i);
    } else {
      ReadModifyAgrees(canon, solver, it.mem, it.regs, s.mem, s.regs, env, i);
    }
  }

  lemma JumpStep(prog: Program, canon: Region -> u64, solver: Solver, it: Item, s: CState, env: Env, nc: nat)
    requires solver.Sound() && Describes(canon, it, s, env) && SymStep(prog, canon, solver, it, nc).Ok?
    requires Fetch(prog, it.sec, it.pc).Some? && Fetch(prog, it.sec, it.pc).value.Jump?
    ensures OutFollows(canon, SymStep(prog, canon, solver, it, nc).value, Step(prog, canon, env, s), env)
  {
    var i := Fetch(prog, it.sec, it.pc).value;
    var x, y := SymOperand(it.regs, i.src, !i.is32), OperandValue(s.regs, i.src, !i.is32);
    hide SymCond, MachineCond, EvalBin, MemRel, StackRel, LogRel, SymOperand, OperandValue, Sat;
    OperandAgrees(it.regs, s.regs, i.src, !i.is32, env);
    CondAgrees(i.code, i.is32, it.regs[i.dst], x, s.regs[i.dst], y, env);
    var cond := SymCond(i.code, i.is32, it.regs[i.dst], x).value;
    var c := solver.simplifyCond(cond);
    assert Holds(c, env) == Holds(cond, env);
    SatSnoc(it.conds, c, env);
    SatSnoc(it.conds, Not(c), env);
  }

  // ----- event payloads -----

  lemma EvalBytesConcat(xs: seq<Term>, ys: seq<Term>, env: Env)
    ensures EvalBytes(xs + ys, env) == EvalBytes(xs, env) + EvalBytes(ys, env)
  {
    hide Eval;
  }

  lemma EvalConstBytes(bs: seq<u8>, env: Env)
    ensures EvalBytes(ConstBytes(bs), env) == bs
  {
    forall i | 0 <= i < |bs|
      ensures EvalBytes(ConstBytes(bs), env)[i] == bs[i]
    {
      ConstValue(bs[i], env);
    }
  }

  lemma EvalWordBytes(t: Term, env: Env)
    ensures EvalBytes(WordBytes(t), env) == LeBytes(Eval(t, env), 8)
  {
    hide ByteOf, EvalBin, LeBytes;
    forall k | 0 <= k < 8
      ensures EvalBytes(WordBytes(t), env)[k] == LeBytes(Eval(t, env), 8)[k]
    {
      assert Eval(Byte(k, t), env) == ByteOf(Eval(t, env), k);
    }
  }

  lemma EvalLowByte(t: Term, env: Env)
    ensures EvalBytes([Byte(0, t)], env) == [Eval(t, env) % 256]
  {
    hide EvalBin;
    assert Eval(Byte(0, t), env) == Eval(t, env) % 256;
  }

  lemma {:induction false} BytesAgree(canon: Region -> u64, solver: Solver, m: SMem, c: CMem, env: Env,
                                      p: SVal, q: CVal, k: nat, n: nat)
    requires k <= n && solver.Sound() && MemRel(canon, m, c, env) && ValRel(p, q, env)
    requires SymBytes(solver, m, p, k, n).Ok?
    ensures var bs := MachineBytes(c, env, q, k, n);
            bs.Fault? || bs == Fine(EvalBytes(SymBytes(solver, m, p, k, n).value, env))
    decreases n - k
  {
    if k < n {
      hide SymLoad, MachineLoad, MemRel, SymDisplace, Displace, Eval, EvalBytes;
      DisplaceAgrees(p, q, k, env);
      LoadAgrees(canon, solver, m, c, env, SymDisplace(p, k), Displace(q, k), 1);
      var v := SymLoad(solver, m, SymDisplace(p, k), 1).value;
      BytesAgree(canon, solver, m, c, env, p, q, k + 1, n);
      var rest := SymBytes(solver, m, p, k + 1, n).value;
      EvalBytesConcat([Byte(0, v.t)], rest, env);
      EvalLowByte(v.t, env);
    }
  }

  lemma ArgAgrees(canon: Region -> u64, solver: Solver, m: SMem, c: CMem, env: Env, rs: SRegs, cs: CRegs, spec: ArgSpec)
    requires spec.r <= 5 && (spec.MemArg? ==> spec.len <= 5)
    requires solver.Sound() && MemRel(canon, m, c, env) && RegsRel(rs, cs, env)
    requires SymArgBytes(solver, m, rs, spec).Ok?
    ensures var bs := ArgBytes(c, env, cs, spec);
            bs.Fault? || bs == Fine(EvalBytes(SymArgBytes(solver, m, rs, spec).value, env))
  {
    hide MemRel, SymBytes, MachineBytes, LeBytes;
    match spec
    case ValArg(r) =>
      if rs[r].SData? { EvalWordBytes(rs[r].t, env); }
    case MemArg(r, len) =>
      var x := ConcreteAddr(solver, rs[len].t).value;
      assert Eval(solver.simplify(rs[len].t), env) == Eval(rs[len].t, env);
      var n := x % TWO32;
      BytesAgree(canon, solver, m, c, env, rs[r], cs[r], 0, n);
      EvalConstBytes(LeBytes(n, 4), env);
      EvalBytesConcat(ConstBytes(LeBytes(n, 4)), SymBytes(solver, m, rs[r], 0, n).value, env);
      hide EvalBin;
  }

  lemma {:induction false} PayloadAgrees(canon: Region -> u64, solver: Solver, m: SMem, c: CMem, env: Env,
                                         rs: SRegs, cs: CRegs, specs: seq<ArgSpec>)
    requires forall s :: s in specs ==> s.r <= 5 && (s.MemArg? ==> s.len <= 5)
    requires solver.Sound() && MemRel(canon, m, c, env) && RegsRel(rs, cs, env)
    requires SymPayload(solver, m, rs, specs).Ok?
    ensures var bs := Payload(c, env, cs, specs);
            bs.Fault? || bs == Fine(EvalBytes(SymPayload(solver, m, rs, specs).value, env))
  {
    if specs != [] {
      hide SymArgBytes, ArgBytes, MemRel, RegsRel;
      ArgAgrees(canon, solver, m, c, env, rs, cs, specs[0]);
      PayloadAgrees(canon, solver, m, c, env, rs, cs, specs[1..]);
      EvalBytesConcat(SymArgBytes(solver, m, rs, specs[0]).value, SymPayload(solver, m, rs, specs[1..]).value, env);
    }
  }

  // ----- helpers -----

  lemma OracleAgrees(hid: nat, bits: nat, idx: nat, env: Env)
    ensures Eval(OracleTerm(hid, bits, idx), env) == OracleAnswer(hid, bits, env.oracle(hid, idx))
  {
    hide EvalBin, BitAnd;
    var t := Oracle(hid, idx, bits);
    if OracleMask(hid).Some? {
      var mask := OracleMask(hid).value;
      AndWords(W64, Eval(t, env), mask);
      assert Eval(Bin(OpAnd, W64, t, Const(mask)), env) == EvalBin(OpAnd, W64, Eval(t, env), mask) by {
        ConstValue(mask, env);
      }
    }
  }

  /** After a helper that records nothing or one event and clobbers the argument registers. */
  lemma AfterHelper(canon: Region -> u64, it: Item, s: CState, env: Env, hid: nat, nc: nat, v: SVal, c: CVal)
    requires Describes(canon, it, s, env) && ValRel(v, c, env)
    ensures Describes(canon,
                      it.(pc := it.pc + 1, regs := SymClobbered(it.regs, v, nc), counters := it.counters.Called(hid)),
                      s.(pc := s.pc + 1, regs := Clobbered(s.regs, c), counters := s.counters.Called(hid)), env)
  {
    hide RegsRel, ValRel, MemRel, StackRel, LogRel, SymClobbered, Clobbered;
    RegsClobbered(it.regs, s.regs, env, v, c, nc);
  }

  lemma Logged(canon: Region -> u64, it: Item, s: CState, env: Env, e: SEvent, v: Event)
    requires Describes(canon, it, s, env) && EventRel(e, v, env)
    ensures Describes(canon, it.(log := it.log + [e]), s.(events := s.events + [v]), env)
  {
    hide RegsRel, MemRel, StackRel, LogRel, EventRel;
    LogSnoc(it.log, s.events, env, e, v);
  }

  lemma EventStep(prog: Program, canon: Region -> u64, solver: Solver, it: Item, s: CState, env: Env, hid: nat, nc: nat)
    requires solver.Sound() && Describes(canon, it, s, env)
    requires EventArgs(hid).Some? && SymHelper(prog, solver, it, hid, nc).Ok?
    ensures OutFollows(canon, SymHelper(prog, solver, it, hid, nc).value, StepHelper(prog, env, s, hid), env)
  {
    hide RegsRel, MemRel, StackRel, LogRel, Payload, SymPayload, SymClobbered, Clobbered, EvalBin, Sat;
    var idx := it.counters.Calls(hid);
    var specs := EventArgs(hid).value;
    assert OracleBits(hid).None? && hid != H_LOOP && hid != H_MAP_LOOKUP;
    PayloadAgrees(canon, solver, it.mem, s.mem, env, it.regs, s.regs, specs);
    hide EventArgs, OracleBits;
    var payload := Payload(s.mem, env, s.regs, specs);
    if payload.Fine? {
      var e, v := SEvent(hid, SymPayload(solver, it.mem, it.regs, specs).value), Event(hid, payload.value);
      var ret := SExt(32, Oracle(hid, idx, 32));
      assert Eval(ret, env) == ErrnoAnswer(env, hid, idx) by {
        assert Eval(Oracle(hid, idx, 32), env) == env.oracle(hid, idx) % TWO32;
      }
      AfterHelper(canon, it, s, env, hid, nc, SData(ret), Data(ErrnoAnswer(env, hid, idx)));
      var it1 := it.(pc := it.pc + 1, regs := SymClobbered(it.regs, SData(ret), nc),
                     counters := it.counters.Called(hid));
      var s1 := s.(pc := s.pc + 1, regs := Clobbered(s.regs, Data(ErrnoAnswer(env, hid, idx))),
                   counters := s.counters.Called(hid));
      Logged(canon, it1, s1, env, e, v);
    }
  }

  lemma OracleStep(prog: Program, canon: Region -> u64, solver: Solver, it: Item, s: CState, env: Env, hid: nat,
                   nc: nat)
    requires Describes(canon, it, s, env) && hid != H_LOOP && hid != H_MAP_LOOKUP && OracleBits(hid).Some?
    ensures SymHelper(prog, solver, it, hid, nc).Ok?
    ensures OutFollows(canon, SymHelper(prog, solver, it, hid, nc).value, StepHelper(prog, env, s, hid), env)
  {
    hide RegsRel, MemRel, StackRel, LogRel, SymClobbered, Clobbered, EvalBin, Sat, OracleTerm, OracleAnswer;
    var idx := it.counters.Calls(hid);
    var bits := OracleBits(hid).value;
    hide OracleBits;
    OracleAgrees(hid, bits, idx, env);
    AfterHelper(canon, it, s, env, hid, nc, SData(OracleTerm(hid, bits, idx)),
                Data(OracleAnswer(hid, bits, env.oracle(hid, idx))));
  }

  lemma QuestionAgrees(prog: Program, canon: Region -> u64, solver: Solver, it: Item, s: CState, env: Env)
    requires solver.Sound() && Describes(canon, it, s, env) && SymLookupQuestion(prog, solver, it).Ok?
    ensures var q, sq := LookupQuestion(prog, s, env), SymLookupQuestion(prog, solver, it).value;
            q.Fault? || q == Fine((sq.0, EvalBytes(sq.1, env)))
  {
    hide MemRel, StackRel, LogRel, SymBytes, MachineBytes, EvalBin;
    var name := it.regs[1].r.name;
    assert ValRel(it.regs[1], s.regs[1], env);
    BytesAgree(canon, solver, it.mem, s.mem, env, it.regs[2], s.regs[2], 0, prog.keySize[name]);
    EvalConstBytes([|name| % 256] + name, env);
    EvalBytesConcat(ConstBytes([|name| % 256] + name),
                    SymBytes(solver, it.mem, it.regs[2], 0, prog.keySize[name]).value, env);
  }

  lemma LookupStep(prog: Program, canon: Region -> u64, solver: Solver, it: Item, s: CState, env: Env, nc: nat)
    requires solver.Sound() && Describes(canon, it, s, env) && SymLookup(prog, solver, it, nc).Ok?
    ensures OutFollows(canon, SymLookup(prog, solver, it, nc).value, StepLookup(prog, env, s), env)
  {
    hide RegsRel, MemRel, StackRel, LogRel, SymClobbered, Clobbered, EvalBin, Sat, LookupQuestion, SymLookupQuestion;
    var idx := it.counters.Calls(H_MAP_LOOKUP);
    QuestionAgrees(prog, canon, solver, it, s, env);
    var q := LookupQuestion(prog, s, env);
    if q.Fine? {
      var (name, payload) := SymLookupQuestion(prog, solver, it).value;
      var e, v := SEvent(H_MAP_LOOKUP, payload), Event(H_MAP_LOOKUP, q.value.1);
      var absent := NullAnswer(H_MAP_LOOKUP, idx);
      SatSnoc(it.conds, absent, env);
      SatSnoc(it.conds, Not(absent), env);
      Logged(canon, it, s, env, e, v);
      var it1, s1 := it.(log := it.log + [e]), s.(events := s.events + [v]);
      if env.isNull(H_MAP_LOOKUP, idx) {
        AfterHelper(canon, it1, s1, env, H_MAP_LOOKUP, nc + 5, SData(Const(0)), Data(0));
      } else {
        AfterHelper(canon, it1, s1, env, H_MAP_LOOKUP, nc, SPtr(MapVal(H_MAP_LOOKUP, name, idx), Const(0)),
                    Ptr(MapVal(H_MAP_LOOKUP, name, idx), 0));
      }
    }
  }

  // ----- bpf_loop -----

  lemma CallbackRegsAgree(i: nat, id: nat, arg: SVal, carg: CVal, env: Env)
    requires ValRel(arg, carg, env)
    ensures RegsRel(SymCallbackRegs(i, id, arg), CallbackRegs(i, id, carg), env)
  {
    hide EvalBin;
  }

  lemma TripCount(solver: Solver, t: Term, env: Env)
    requires solver.Sound()
    ensures Eval(Lo32(solver.simplify(t)), env) == Eval(t, env) % TWO32
  {
    hide EvalBin;
  }

  /** The two sides of the fork at the call decide between no trip and a first one. */
  lemma EnterOrSkip(solver: Solver, n: Term, env: Env)
    requires solver.Sound()
    ensures Holds(solver.simplifyCond(Compare(CmpUgt, W64, n, Const(0))), env) <==> Eval(n, env) > 0
    ensures Holds(solver.simplifyCond(Compare(CmpEq, W64, n, Const(0))), env) <==> Eval(n, env) == 0
  {
    hide Eval, Holds, EvalCmp, Sat;
    ConstValue(0, env);
    CompareCond(CmpUgt, W64, n, Const(0), env);
    CompareCond(CmpEq, W64, n, Const(0), env);
    SimplifiedCond(solver, Compare(CmpUgt, W64, n, Const(0)), env);
    SimplifiedCond(solver, Compare(CmpEq, W64, n, Const(0)), env);
    Compare64(Eval(n, env), 0);
  }

  /** No trip: the helper returns 0 at once. */
  lemma LoopSkipped(canon: Region -> u64, it: Item, s: CState, env: Env, id: nat, e: SEvent, nc: nat)
    requires Describes(canon, it, s, env) && e.hid == H_LOOP
    ensures Describes(canon,
                      it.(counters := it.counters.(cbframe := id), log := it.log + [e], pc := it.pc + 1,
                          regs := SymClobbered(it.regs, SData(Const(0)), nc)),
                      s.(counters := s.counters.(cbframe := id), events := s.events + [Event(H_LOOP, [])],
                         pc := s.pc + 1,
                         regs := Clobbered(s.regs, Data(0))), env)
  {
    hide RegsRel, MemRel, StackRel, LogRel, SymClobbered, Clobbered, EvalBin;
    LogSnoc(it.log, s.events, env, e, Event(H_LOOP, []));
    RegsClobbered(it.regs, s.regs, env, SData(Const(0)), Data(0), nc);
  }

  /** A first trip: the callback starts in its own frame. */
  lemma LoopEntered(canon: Region -> u64, it: Item, s: CState, env: Env, id: nat, e: SEvent, n: Term, conds: seq<Cond>)
    requires Describes(canon, it, s, env) && e.hid == H_LOOP && Eval(n, env) > 0
    requires it.regs[2].SPtr? && it.regs[2].r.FuncPtr?
    ensures var target := it.regs[2].r;
            Describes(canon,
                      it.(counters := it.counters.(cbframe := id), log := it.log + [e], sec := target.sec,
                          pc := target.entry,
                          regs := SymCallbackRegs(0, id, it.regs[3]), conds := conds,
                          stack := it.stack + [Loop(target.sec, target.entry, 0, n, it.sec, it.pc + 1, it.regs, id,
                                                    it.regs[3])]),
                      s.(counters := s.counters.(cbframe := id), events := s.events + [Event(H_LOOP, [])],
                         sec := target.sec, pc := target.entry,
                         regs := CallbackRegs(0, id, s.regs[3]),
                         stack := s.stack + [CLoop(target.sec, target.entry, 0, Eval(n, env), s.sec, s.pc + 1, s.regs,
                                                   id, s.regs[3])]), env)
  {
    hide MemRel, StackRel, LogRel, SymCallbackRegs, CallbackRegs, Eval;
    var target := it.regs[2].r;
    LogSnoc(it.log, s.events, env, e, Event(H_LOOP, []));
    CallbackRegsAgree(0, id, it.regs[3], s.regs[3], env);
    StackPush(it.stack, s.stack, env, Loop(target.sec, target.entry, 0, n, it.sec, it.pc + 1, it.regs, id, it.regs[3]),
              CLoop(target.sec, target.entry, 0, Eval(n, env), s.sec, s.pc + 1, s.regs, id, s.regs[3]));
  }

  lemma LoopStep(canon: Region -> u64, solver: Solver, it: Item, s: CState, env: Env, nc: nat)
    requires solver.Sound() && Describes(canon, it, s, env) && SymLoop(solver, it, nc).Ok?
    ensures OutFollows(canon, SymLoop(solver, it, nc).value, StepLoop(s), env)
  {
    hide MemRel, StackRel, LogRel, SymClobbered, Clobbered, SymCallbackRegs, CallbackRegs, EvalBin, Sat, LoopPayload;
    var id := it.counters.cbframe + 1;
    assert ValRel(it.regs[1], s.regs[1], env) && ValRel(it.regs[2], s.regs[2], env);
    if s.regs[1].Data? && s.regs[2].Ptr? {
      var n := Lo32(solver.simplify(it.regs[1].t));
      TripCount(solver, it.regs[1].t, env);
      EnterOrSkip(solver, n, env);
      var enter := solver.simplifyCond(Compare(CmpUgt, W64, n, Const(0)));
      var skip := solver.simplifyCond(Compare(CmpEq, W64, n, Const(0)));
      var trips := solver.literal(n);
      assert trips.Some? ==> Eval(n, env) == trips.value;
      var e := SEvent(H_LOOP, LoopPayload(trips));
      SatSnoc(it.conds, skip, env);
      SatSnoc(it.conds, enter, env);
      hide Holds, Eval;
      if Eval(n, env) == 0 {
        LoopSkipped(canon, it, s, env, id, e, nc);
      } else {
        LoopEntered(canon, it, s, env, id, e, n, if enter == BoolVal(true) then it.conds else it.conds + [enter]);
      }
      assert enter == BoolVal(true) ==> Holds(enter, env) by { BoolValue(true, env); }
    }
  }

  lemma BoolValue(b: bool, env: Env)
    ensures Holds(BoolVal(b), env) == b
  {
  }

  /** The two sides of the fork at the end of an iteration decide whether the loop goes on. */
  lemma GoOrStop(solver: Solver, n: Term, next: nat, r0: Term, env: Env)
    requires solver.Sound() && next < TWO64
    ensures var limit := Const(next % TWO64);
            var more := solver.simplifyCond(Compare(CmpUgt, W64, n, limit));
            var go := solver.simplifyCond(Both(more, Compare(CmpEq, W64, r0, Const(0))));
            var stop := solver.simplifyCond(Either(Compare(CmpUle, W64, n, limit), Compare(CmpNe, W64, r0, Const(0))));
            && (Holds(go, env) <==> next < Eval(n, env) && Eval(r0, env) == 0)
            && (Holds(stop, env) <==> !(next < Eval(n, env) && Eval(r0, env) == 0))
  {
    hide Eval, Holds, EvalCmp, Sat;
    var limit := Const(next % TWO64);
    assert next % TWO64 == next;
    ConstValue(0, env);
    ConstValue(next, env);
    var gt, le := Compare(CmpUgt, W64, n, limit), Compare(CmpUle, W64, n, limit);
    var eq, ne := Compare(CmpEq, W64, r0, Const(0)), Compare(CmpNe, W64, r0, Const(0));
    CompareCond(CmpUgt, W64, n, limit, env);
    CompareCond(CmpUle, W64, n, limit, env);
    CompareCond(CmpEq, W64, r0, Const(0), env);
    CompareCond(CmpNe, W64, r0, Const(0), env);
    Compare64(Eval(n, env), next);
    Compare64(Eval(r0, env), 0);
    var more := solver.simplifyCond(gt);
    SimplifiedCond(solver, gt, env);
    BothCond(more, eq, env);
    SimplifiedCond(solver, Both(more, eq), env);
    BothCond(le, ne, env);
    SimplifiedCond(solver, Either(le, ne), env);
  }

  lemma LoopExitStep(canon: Region -> u64, solver: Solver, it: Item, s: CState, env: Env, nc: nat)
    requires solver.Sound() && Describes(canon, it, s, env)
    requires it.stack != [] && it.stack[|it.stack| - 1].Loop? && SymLoopExit(solver, it, nc).Ok?
    ensures OutFollows(canon, SymLoopExit(solver, it, nc).value, StepExit(s), env)
  {
    hide MemRel, StackRel, LogRel, SymClobbered, Clobbered, SymCallbackRegs, CallbackRegs, EvalBin, Sat;
    StackPop(it.stack, s.stack, env);
    assert |s.stack| == |it.stack| by { assert StackRel(it.stack, s.stack, env); StackLength(it.stack, s.stack, env); }
    var top, rest := it.stack[|it.stack| - 1], it.stack[..|it.stack| - 1];
    var ctop, crest := s.stack[|s.stack| - 1], s.stack[..|s.stack| - 1];
    assert ValRel(it.regs[0], s.regs[0], env);
    if s.regs[0].Data? {
      var r0 := it.regs[0].t;
      var next := top.i + 1;
      var limit := Const(next % TWO64);
      GoOrStop(solver, top.n, next, r0, env);
      var more := solver.simplifyCond(Compare(CmpUgt, W64, top.n, limit));
      var go := solver.simplifyCond(Both(more, Compare(CmpEq, W64, r0, Const(0))));
      var stop := solver.simplifyCond(Either(Compare(CmpUle, W64, top.n, limit), Compare(CmpNe, W64, r0, Const(0))));
      SatSnoc(it.conds, stop, env);
      SatSnoc(it.conds, go, env);
      ConstValue(next, env);
      hide Holds, Eval;
      if next < ctop.n && s.regs[0].v == 0 {
        CallbackRegsAgree(next, top.id, top.arg, ctop.arg, env);
        StackPush(rest, crest, env, top.(i := next), ctop.(i := next));
      } else {
        RegsClobbered(top.regs, ctop.regs, env, SData(limit), Data(next % TWO64), nc);
      }
    }
  }

  lemma StackLength(fs: seq<Frame>, gs: seq<CFrame>, env: Env)
    requires StackRel(fs, gs, env)
    ensures |fs| == |gs|
  {
  }

  // ----- calls and returns -----

  lemma CallStep(canon: Region -> u64, it: Item, s: CState, env: Env, sec: Name, entry: nat)
    requires Describes(canon, it, s, env)
    ensures var frame := it.counters.frame + 1;
            Describes(canon,
                      it.(sec := sec, pc := entry, regs := it.regs[10 := SPtr(Stack(frame), Const(STACK_SIZE))],
                          counters := it.counters.(frame := frame),
                          stack := it.stack + [Call(it.sec, it.pc + 1, it.regs)]),
                      s.(sec := sec, pc := entry, regs := CalleeRegs(s.regs, frame),
                         counters := s.counters.(frame := frame),
                         stack := s.stack + [CCall(s.sec, s.pc + 1, s.regs)]), env)
  {
    hide MemRel, StackRel, LogRel, EvalBin;
    StackPush(it.stack, s.stack, env, Call(it.sec, it.pc + 1, it.regs), CCall(s.sec, s.pc + 1, s.regs));
  }

  lemma ReturnRegs(rs: SRegs, cs: CRegs, env: Env, v: SVal, c: CVal)
    requires RegsRel(rs, cs, env) && ValRel(v, c, env)
    ensures RegsRel(rs[0 := v], Clobbered(cs, c), env)
  {
    hide EvalVal;
  }

  lemma ExitStep(canon: Region -> u64, solver: Solver, it: Item, s: CState, env: Env, nc: nat)
    requires solver.Sound() && Describes(canon, it, s, env) && SymExit(solver, it, nc).Ok?
    ensures OutFollows(canon, SymExit(solver, it, nc).value, StepExit(s), env)
  {
    StackLength(it.stack, s.stack, env);
    if it.stack == [] {
      hide MemRel, StackRel, LogRel, EvalBin;
      assert ValRel(it.regs[0], s.regs[0], env);
    } else if it.stack[|it.stack| - 1].Loop? {
      LoopExitStep(canon, solver, it, s, env, nc);
    } else {
      hide MemRel, StackRel, LogRel, EvalBin, Clobbered;
      StackPop(it.stack, s.stack, env);
      ReturnRegs(it.stack[|it.stack| - 1].regs, s.stack[|s.stack| - 1].regs, env, it.regs[0], s.regs[0]);
    }
  }

  // ----- every instruction -----

  lemma HelperStep(prog: Program, canon: Region -> u64, solver: Solver, it: Item, s: CState, env: Env, hid: nat,
                   nc: nat)
    requires solver.Sound() && Describes(canon, it, s, env) && SymHelper(prog, solver, it, hid, nc).Ok?
    ensures OutFollows(canon, SymHelper(prog, solver, it, hid, nc).value, StepHelper(prog, env, s, hid), env)
  {
    if hid == H_MAP_LOOKUP {
      LookupStep(prog, canon, solver, it, s, env, nc);
    } else if hid == H_LOOP {
      LoopStep(canon, solver, it, s, env, nc);
    } else if OracleBits(hid).Some? {
      OracleStep(prog, canon, solver, it, s, env, hid, nc);
    } else {
      EventStep(prog, canon, solver, it, s, env, hid, nc);
    }
  }

  /** One symbolic step describes one machine step, whichever way it forks. */
  lemma StepAgrees(prog: Program, canon: Region -> u64, solver: Solver, it: Item, s: CState, env: Env, nc: nat)
    requires solver.Sound() && Describes(canon, it, s, env) && SymStep(prog, canon, solver, it, nc).Ok?
    ensures OutFollows(canon, SymStep(prog, canon, solver, it, nc).value, Step(prog, canon, env, s), env)
  {
    var i := Fetch(prog, it.sec, it.pc).value;
    match i
    case LdImm64(dst, v) => LdImmStep(canon, it, s, env, dst, v); hide Eval, MemRel, RegsRel;
    case Alu(_, _, _, _, _) => AluStep(prog, canon, solver, it, s, env, nc);
    case Ldx(_, _, _, _, _) => LdxStep(prog, canon, solver, it, s, env, nc);
    case Stx(_, _, _, _) => StxStep(prog, canon, solver, it, s, env, nc);
    case Endian(_, _, _, _) => EndianStep(prog, canon, solver, it, s, env, nc);
    case Atomic(_, _, _, _, _) => AtomicStep(prog, canon, solver, it, s, env, nc);
    case Ja(off) => hide Eval, MemRel, RegsRel, StackRel, LogRel;
    case Jump(_, _, _, _, _) => JumpStep(prog, canon, solver, it, s, env, nc);
    case CallLocal(sec, entry) => CallStep(canon, it, s, env, sec, entry); hide Eval, MemRel, RegsRel, StackRel;
    case CallHelper(hid) => HelperStep(prog, canon, solver, it, s, env, hid, nc); hide SymHelper, StepHelper, Describes;
    case Exit => ExitStep(canon, solver, it, s, env, nc); hide SymExit, StepExit, Describes;
  }
}
