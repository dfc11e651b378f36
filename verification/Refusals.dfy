/** When the executor gives up on a step: exactly where the machine itself has no meaning for the instruction, or
    where one of the executor's own limits is hit. */
module Refusals {
  import opened Words
  import opened Terms
  import opened Memory
  import opened Machine
  import opened SymbolicStep
  import opened Arithmetic
  import opened Atomics
  import opened Simulation

  // ----- limits -----

  /** The solver does not reduce the term to a number. */
  predicate Unknown(solver: Solver, t: Term) { !solver.simplify(t).Const? }

  /** The region holds a spilled pointer, and the address in it is not known. */
  predicate Blind(solver: Solver, m: SMem, p: SVal) {
    m.ShadowOf(Locate(p).0) != map[] && Unknown(solver, Locate(p).1)
  }

  /** A pointer is spilled to a known address only. */
  predicate BlindStore(solver: Solver, m: SMem, p: SVal, size: nat, val: SVal) {
    Blind(solver, m, p) || (val.SPtr? && size == 8 && Unknown(solver, Locate(p).1))
  }

  ghost predicate BlindBytes(solver: Solver, m: SMem, p: SVal, k: nat, n: nat) {
    exists j: nat :: k <= j < n && Blind(solver, m, SymDisplace(p, j))
  }

  /** A block argument needs a known length of at most 8192 and known addresses. */
  ghost predicate BlindArg(solver: Solver, m: SMem, regs: SRegs, spec: ArgSpec)
    requires spec.r <= 5 && (spec.MemArg? ==> spec.len <= 5)
  {
    spec.MemArg? && regs[spec.len].SData? &&
    match solver.simplify(regs[spec.len].t)
    case Const(v) => v % 0x1_0000_0000 > 8192 || BlindBytes(solver, m, regs[spec.r], 0, v % 0x1_0000_0000)
    case _ => true
  }

  ghost predicate BlindArgs(solver: Solver, m: SMem, regs: SRegs, specs: seq<ArgSpec>)
    requires forall s :: s in specs ==> s.r <= 5 && (s.MemArg? ==> s.len <= 5)
  {
    exists i :: 0 <= i < |specs| && BlindArg(solver, m, regs, specs[i])
  }

  /** A lookup needs a key of at most 8192 bytes at known addresses. */
  ghost predicate BlindKey(prog: Program, solver: Solver, it: Item) {
    && it.regs[1].SPtr? && it.regs[1].r.MapHandle? && it.regs[1].r.name in prog.keySize
    && var n := prog.keySize[it.regs[1].r.name];
       n > 8192 || BlindBytes(solver, it.mem, it.regs[2], 0, n)
  }

  /** A callback that may go round an eighth time. */
  predicate EighthRound(solver: Solver, it: Item) {
    && it.stack != [] && it.stack[|it.stack| - 1].Loop? && it.regs[0].SData?
    && var top := it.stack[|it.stack| - 1];
       var more := solver.simplifyCond(Compare(CmpUgt, W64, top.n, Const((top.i + 1) % TWO64)));
       var go := solver.simplifyCond(Both(more, Compare(CmpEq, W64, it.regs[0].t, Const(0))));
       top.i + 1 >= 8 && go != BoolVal(false) && solver.feasible(it.conds + [go])
  }

  /** One of the executor's limits is hit: an unknown address or length, a block of more than 8192 bytes, more
      than eight frames, or an eighth round of a callback. */
  ghost predicate Beyond(prog: Program, solver: Solver, it: Item, i: Insn)
    requires ValidInsn(i)
  {
    match i
    case Ldx(_, _, _, base, off) => Blind(solver, it.mem, SymDisplace(it.regs[base], off))
    case Stx(size, base, off, src) =>
      BlindStore(solver, it.mem, SymDisplace(it.regs[base], off), size, SymOperand(it.regs, src, true))
    case Atomic(_, aop, dst, other, off) =>
      Blind(solver, it.mem, SymDisplace(it.regs[if aop == 0x100 then other else dst], off))
    case CallLocal(_, _) => |it.stack| >= 8
    case CallHelper(hid) =>
      || (hid == 1 && BlindKey(prog, solver, it))
      || (hid == 181 && |it.stack| >= 8)
      || (EventArgs(hid).Some? && BlindArgs(solver, it.mem, it.regs, EventArgs(hid).value))
    case Exit => EighthRound(solver, it)
    case _ => false
  }

  // ----- values -----

  lemma AluRefusedIff(code: nat, is64: bool, off: int, d: SVal, s: SVal, cd: CVal, cs: CVal, env: Env)
    requires ValRel(d, cd, env) && ValRel(s, cs, env) && !MachineAlu(code, is64, off, cd, cs).Fault?
    ensures SymAlu(code, is64, off, d, s).Bail? <==> MachineAlu(code, is64, off, cd, cs).Stuck?
  {
    hide Eval, EvalBin, MoveSigned;
    if code != 11 && d.SData? && s.SData? {
      SameCodes(code, if is64 then W64 else W32, off, Eval(d.t, env), Eval(s.t, env), d.t, s.t);
    }
    hide Arith, SymArith;
  }

  lemma SameCodes(code: nat, w: Width, off: int, x: u64, y: u64, s: Term, t: Term)
    ensures Arith(code, w, off, x, y).Some? <==> SymArith(code, w, off, s, t).Some?
  {
    hide ToSigned, TruncDiv, TruncRem, BitAnd, BitOr, BitXor, Pow2;
  }

  lemma CondRefusedIff(code: nat, is32: bool, d: SVal, s: SVal, cd: CVal, cs: CVal, env: Env)
    requires ValRel(d, cd, env) && ValRel(s, cs, env) && !MachineCond(code, is32, cd, cs).Fault?
    ensures SymCond(code, is32, d, s).Bail? <==> MachineCond(code, is32, cd, cs).Stuck?
  {
    hide Eval, BitAnd, ToSigned;
  }

  lemma EndianRefusedIff(is64: bool, toBig: bool, width: int, v: SVal, c: CVal, env: Env)
    requires ValRel(v, c, env) && !MachineEndian(is64, toBig, width, c).Fault?
    ensures SymEndian(is64, toBig, width, v).Bail? <==> MachineEndian(is64, toBig, width, c).Stuck?
  {
    hide Eval, Swapped, Truncated;
  }

  // ----- memory -----

  lemma LoadRefusedIff(canon: Region -> u64, solver: Solver, m: SMem, c: CMem, env: Env, p: SVal, q: CVal, size: nat)
    requires 1 <= size <= 8 && solver.Sound() && MemRel(canon, m, c, env) && ValRel(p, q, env)
    requires !MachineLoad(c, env, q, size).Fault?
    ensures SymLoad(solver, m, p, size).Bail? <==> MachineLoad(c, env, q, size).Stuck? || Blind(solver, m, p)
  {
    var (r, addr) := Locate(p);
    var sh := m.ShadowOf(r);
    if SymLoad(solver, m, p, size).Ok? {
      LoadAgrees(canon, solver, m, c, env, p, q, size);
      hide LoadAt, MemRel, Eval, LoadTerm;
    } else if r.HasBytes() && !Blind(solver, m, p) {
      var a := Eval(addr, env);
      assert solver.simplify(addr) == Const(a) by {
        assert Eval(solver.simplify(addr), env) == a;
        ConstValue(solver.simplify(addr).v, env);
      }
      hide Eval, LoadTerm;
      var o :| o in sh && Touches(o, a, size);
      SplitSlot(canon, m, c, env, r, a, o, size);
    } else {
      hide LoadAt, MemRel, Eval, LoadTerm;
    }
  }

  lemma SlotIsNotRaw(canon: Region -> u64, m: SMem, c: CMem, env: Env, r: Region, o: u64, x: u64)
    requires MemRel(canon, m, c, env) && o in m.ShadowOf(r) && o <= x < o + 8
    ensures !CellAt(c, env, r, x).Raw?
  {
    hide Eval, At, SpelledOut, CellAt;
    MemRelAt(canon, m, c, env, r);
    ViewOfSlot(m, env, r, o, x);
    assert CellRel(r, CellAt(c, env, r, x), ViewAt(m, env, r, x));
  }

  lemma PointerStartsSlot(canon: Region -> u64, m: SMem, c: CMem, env: Env, r: Region, a: u64)
    requires MemRel(canon, m, c, env) && CellAt(c, env, r, a).Frag? && CellAt(c, env, r, a).k == 0
    ensures a in m.ShadowOf(r)
  {
    hide Eval, At, SpelledOut, CellAt;
    MemRelAt(canon, m, c, env, r);
    assert CellRel(r, CellAt(c, env, r, a), ViewAt(m, env, r, a));
    var o :| Covers(m.ShadowOf(r), o, a);
    ViewOfSlot(m, env, r, o, a);
  }

  /** A load that touches a spilled pointer without being exactly it has no meaning. */
  lemma SplitSlot(canon: Region -> u64, m: SMem, c: CMem, env: Env, r: Region, a: u64, o: u64, size: nat)
    requires MemRel(canon, m, c, env) && 1 <= size <= 8 && o in m.ShadowOf(r) && Touches(o, a, size)
    requires !(size == 8 && a in m.ShadowOf(r)) && !LoadAt(c, env, r, a, size).Fault?
    ensures LoadAt(c, env, r, a, size).Stuck?
  {
    hide MemRel, CellAt, RawBytes, LeValue;
    SlotIsNotRaw(canon, m, c, env, r, o, if o < a then a else o);
    if CellAt(c, env, r, a).Frag? && CellAt(c, env, r, a).k == 0 {
      PointerStartsSlot(canon, m, c, env, r, a);
    }
  }

  lemma StoreRefusedIff(canon: Region -> u64, solver: Solver, m: SMem, c: CMem, env: Env, p: SVal, q: CVal, size: nat,
                        val: SVal, w: CVal)
    requires 1 <= size <= 8 && ValRel(p, q, env) && ValRel(val, w, env)
    requires !MachineStore(canon, c, q, size, w).Fault?
    ensures SymStore(canon, solver, m, p, size, val).Bail? <==>
            MachineStore(canon, c, q, size, w).Stuck? || BlindStore(solver, m, p, size, val)
  {
    hide Eval, StoreTerm, Untouched, Overwrite, CellsOf;
  }

  lemma AtomicRefusedIff(canon: Region -> u64, solver: Solver, m: SMem, rs: SRegs, c: CMem, cs: CRegs, env: Env,
                         i: Insn)
    requires solver.Sound() && MemRel(canon, m, c, env) && RegsRel(rs, cs, env) && i.Atomic? && ValidInsn(i)
    requires !MachineAtomic(canon, c, env, cs, i).Fault?
    ensures SymAtomic(canon, solver, m, rs, i).Bail? <==>
            || MachineAtomic(canon, c, env, cs, i).Stuck?
            || Blind(solver, m, SymDisplace(rs[if i.aop == 0x100 then i.other else i.dst], i.off))
  {
    hide SymLoad, MachineLoad, SymStore, MachineStore, Eval, MemRel, SymDisplace, Displace, AtomicTerm, AtomicNew,
         Blind;
    var at := if i.aop == 0x100 then i.other else i.dst;
    var p, q := SymDisplace(rs[at], i.off), Displace(cs[at], i.off);
    DisplaceAgrees(rs[at], cs[at], i.off, env);
    if i.aop == 0x100 {
      LoadRefusedIff(canon, solver, m, c, env, p, q, i.size);
    } else if cs[i.other].Data? {
      if i.aop == 0x110 {
        DataStore(canon, solver, m, c, env, p, q, i.size, rs[i.other], cs[i.other]);
      } else if i.size == 4 || i.size == 8 {
        UpdateRefusedIff(canon, solver, m, rs, c, cs, env, i);
      }
    }
  }

  /** A store of data is refused as a load there is. */
  lemma DataStore(canon: Region -> u64, solver: Solver, m: SMem, c: CMem, env: Env, p: SVal, q: CVal, size: nat,
                  val: SVal, w: CVal)
    requires 1 <= size <= 8 && ValRel(p, q, env) && ValRel(val, w, env) && val.SData?
    requires !MachineStore(canon, c, q, size, w).Fault?
    ensures SymStore(canon, solver, m, p, size, val).Bail? <==>
            MachineStore(canon, c, q, size, w).Stuck? || Blind(solver, m, p)
  {
    hide SymStore, MachineStore, Blind, ValRel;
    StoreRefusedIff(canon, solver, m, c, env, p, q, size, val, w);
  }

  lemma UpdateRefusedIff(canon: Region -> u64, solver: Solver, m: SMem, rs: SRegs, c: CMem, cs: CRegs, env: Env,
                         i: Insn)
    requires solver.Sound() && MemRel(canon, m, c, env) && RegsRel(rs, cs, env) && i.Atomic? && ValidInsn(i)
    requires i.aop !in {0x100, 0x110} && i.size in {4, 8} && cs[i.other].Data?
    requires !MachineAtomic(canon, c, env, cs, i).Fault?
    ensures SymAtomic(canon, solver, m, rs, i).Bail? <==>
            MachineAtomic(canon, c, env, cs, i).Stuck? || Blind(solver, m, SymDisplace(rs[i.dst], i.off))
  {
    hide SymLoad, MachineLoad, SymStore, MachineStore, Eval, MemRel, SymDisplace, Displace, AtomicTerm, AtomicNew,
         Blind;
    var p, q := SymDisplace(rs[i.dst], i.off), Displace(cs[i.dst], i.off);
    DisplaceAgrees(rs[i.dst], cs[i.dst], i.off, env);
    LoadRefusedIff(canon, solver, m, c, env, p, q, i.size);
    var v := MachineLoad(c, env, q, i.size);
    if v.Fine? && SymLoad(solver, m, p, i.size).Ok? {
      LoadAgrees(canon, solver, m, c, env, p, q, i.size);
      if v.value.Data? {
        var old_, src := SymLoad(solver, m, p, i.size).value.t, rs[i.other].t;
        if i.aop == A_CMPXCHG {
          if cs[0].Data? {
            var t := If(Compare(CmpEq, AtomicWidth(i.size), old_, rs[0].t), src, old_);
            ExchangeValue(i.size, old_, rs[0].t, src, env);
            DataStore(canon, solver, m, c, env, p, q, i.size, SData(t), Data(Eval(t, env)));
          }
        } else {
          SameAtomics(i.aop, i.size, v.value.v, cs[i.other].v, old_, src);
          var t := AtomicTerm(i.aop, old_, src);
          if t.Some? {
            StoreAnyValue(canon, c, q, i.size, AtomicNew(i.aop, i.size, v.value.v, cs[i.other].v).value,
                          Eval(t.value, env));
            DataStore(canon, solver, m, c, env, p, q, i.size, SData(t.value), Data(Eval(t.value, env)));
          }
        }
      }
    }
  }

  lemma SameAtomics(aop: int, size: nat, x: u64, y: u64, s: Term, t: Term)
    ensures AtomicNew(aop, size, x, y).Some? <==> AtomicTerm(aop, s, t).Some?
  {
    hide ToSigned, TruncDiv, TruncRem, BitAnd, BitOr, BitXor, Pow2;
  }

  lemma StoreAnyValue(canon: Region -> u64, c: CMem, q: CVal, size: nat, v: u64, w: u64)
    requires 1 <= size <= 8
    ensures MachineStore(canon, c, q, size, Data(v)).Fault? <==> MachineStore(canon, c, q, size, Data(w)).Fault?
    ensures MachineStore(canon, c, q, size, Data(v)).Stuck? <==> MachineStore(canon, c, q, size, Data(w)).Stuck?
  {
    hide Overwrite, CellsOf;
  }

  // ----- helpers -----

  lemma {:induction false} BytesRefusedIff(canon: Region -> u64, solver: Solver, m: SMem, c: CMem, env: Env,
                                           p: SVal, q: CVal, k: nat, n: nat)
    requires k <= n && solver.Sound() && MemRel(canon, m, c, env) && ValRel(p, q, env)
    requires !MachineBytes(c, env, q, k, n).Fault?
    ensures SymBytes(solver, m, p, k, n).Bail? <==>
            MachineBytes(c, env, q, k, n).Stuck? || BlindBytes(solver, m, p, k, n)
    decreases n - k
  {
    if k < n {
      hide SymLoad, MachineLoad, MemRel, SymDisplace, Displace, Eval, Blind;
      DisplaceAgrees(p, q, k, env);
      var x, y := SymDisplace(p, k), Displace(q, k);
      LoadRefusedIff(canon, solver, m, c, env, x, y, 1);
      var v := MachineLoad(c, env, y, 1);
      if v.Fine? {
        ByteIsData(c, env, y);
        BytesRefusedIff(canon, solver, m, c, env, p, q, k + 1, n);
        if SymLoad(solver, m, x, 1).Ok? { LoadAgrees(canon, solver, m, c, env, x, y, 1); }
      }
      assert Blind(solver, m, x) ==> BlindBytes(solver, m, p, k, n);
      assert BlindBytes(solver, m, p, k, n) ==> Blind(solver, m, x) || BlindBytes(solver, m, p, k + 1, n);
    }
  }

  lemma ByteIsData(c: CMem, env: Env, q: CVal)
    requires MachineLoad(c, env, q, 1).Fine?
    ensures MachineLoad(c, env, q, 1).value.Data?
  {
  }

  lemma ArgRefusedIff(canon: Region -> u64, solver: Solver, m: SMem, c: CMem, env: Env, rs: SRegs, cs: CRegs,
                      spec: ArgSpec)
    requires spec.r <= 5 && (spec.MemArg? ==> spec.len <= 5)
    requires solver.Sound() && MemRel(canon, m, c, env) && RegsRel(rs, cs, env)
    requires !ArgBytes(c, env, cs, spec).Fault?
    ensures SymArgBytes(solver, m, rs, spec).Bail? <==>
            ArgBytes(c, env, cs, spec).Stuck? || BlindArg(solver, m, rs, spec)
  {
    hide MemRel, SymBytes, MachineBytes, LeBytes, BlindBytes;
    if spec.MemArg? && cs[spec.len].Data? {
      var t := rs[spec.len].t;
      if solver.simplify(t).Const? {
        assert solver.simplify(t).v == cs[spec.len].v by {
          assert Eval(solver.simplify(t), env) == Eval(t, env);
          ConstValue(solver.simplify(t).v, env);
        }
        BytesRefusedIff(canon, solver, m, c, env, rs[spec.r], cs[spec.r], 0, cs[spec.len].v % TWO32);
      }
    }
    hide Eval;
  }

  lemma {:induction false} PayloadRefusedIff(canon: Region -> u64, solver: Solver, m: SMem, c: CMem, env: Env,
                                             rs: SRegs, cs: CRegs, specs: seq<ArgSpec>)
    requires forall s :: s in specs ==> s.r <= 5 && (s.MemArg? ==> s.len <= 5)
    requires solver.Sound() && MemRel(canon, m, c, env) && RegsRel(rs, cs, env)
    requires !Payload(c, env, cs, specs).Fault?
    ensures SymPayload(solver, m, rs, specs).Bail? <==>
            Payload(c, env, cs, specs).Stuck? || BlindArgs(solver, m, rs, specs)
  {
    if specs != [] {
      hide SymArgBytes, ArgBytes, MemRel, RegsRel, BlindArg;
      ArgRefusedIff(canon, solver, m, c, env, rs, cs, specs[0]);
      if ArgBytes(c, env, cs, specs[0]).Fine? {
        PayloadRefusedIff(canon, solver, m, c, env, rs, cs, specs[1..]);
      }
      var rest := specs[1..];
      if BlindArgs(solver, m, rs, specs) && !BlindArg(solver, m, rs, specs[0]) {
        var i :| 0 <= i < |specs| && BlindArg(solver, m, rs, specs[i]);
        assert BlindArg(solver, m, rs, rest[i - 1]);
      }
      if i :| 0 <= i < |rest| && BlindArg(solver, m, rs, rest[i]) { assert BlindArg(solver, m, rs, specs[i + 1]); }
    }
  }

  lemma HelperRefusedIff(prog: Program, canon: Region -> u64, solver: Solver, it: Item, s: CState, env: Env, hid: nat,
                         nc: nat)
    requires solver.Sound() && Describes(canon, it, s, env) && !StepHelper(prog, env, s, hid).Trapped?
    ensures SymHelper(prog, solver, it, hid, nc).Bail? <==>
            StepHelper(prog, env, s, hid).Wedged? || Beyond(prog, solver, it, CallHelper(hid))
  {
    hide MemRel, StackRel, LogRel, SymPayload, Payload, SymBytes, MachineBytes, Clobbered, SymClobbered, Eval,
         BlindArgs, BlindBytes;
    if hid == H_MAP_LOOKUP {
      LookupRefusedIff(prog, canon, solver, it, s, env, nc);
    } else if hid == H_LOOP {
      LoopRefusedIff(solver, it, s, env, nc);
    } else if EventArgs(hid).Some? {
      PayloadRefusedIff(canon, solver, it.mem, s.mem, env, it.regs, s.regs, EventArgs(hid).value);
    }
  }

  lemma LookupRefusedIff(prog: Program, canon: Region -> u64, solver: Solver, it: Item, s: CState, env: Env, nc: nat)
    requires solver.Sound() && Describes(canon, it, s, env) && !StepLookup(prog, env, s).Trapped?
    ensures SymLookup(prog, solver, it, nc).Bail? <==>
            StepLookup(prog, env, s).Wedged? || BlindKey(prog, solver, it)
  {
    hide MemRel, StackRel, LogRel, SymBytes, MachineBytes, Clobbered, SymClobbered, Eval, BlindBytes;
    assert ValRel(it.regs[1], s.regs[1], env) && ValRel(it.regs[2], s.regs[2], env);
    if s.regs[1].Ptr? && s.regs[1].r.MapHandle? && s.regs[1].r.name in prog.keySize {
      BytesRefusedIff(canon, solver, it.mem, s.mem, env, it.regs[2], s.regs[2], 0, prog.keySize[s.regs[1].r.name]);
    }
  }

  lemma LoopRefusedIff(solver: Solver, it: Item, s: CState, env: Env, nc: nat)
    requires s.Running? && RegsRel(it.regs, s.regs, env) && !StepLoop(s).Trapped?
    ensures SymLoop(solver, it, nc).Bail? <==> StepLoop(s).Wedged? || |it.stack| >= 8
  {
    hide Clobbered, SymClobbered, CallbackRegs, SymCallbackRegs, Eval;
    assert ValRel(it.regs[1], s.regs[1], env) && ValRel(it.regs[2], s.regs[2], env);
  }

  // ----- the step -----

  lemma ExitRefusedIff(solver: Solver, it: Item, s: CState, env: Env, nc: nat)
    requires s.Running? && RegsRel(it.regs, s.regs, env) && StackRel(it.stack, s.stack, env) && !StepExit(s).Trapped?
    requires s.stack == [] ==> !s.regs[0].Undef?
    ensures SymExit(solver, it, nc).Bail? <==> StepExit(s).Wedged? || EighthRound(solver, it)
  {
    hide Clobbered, SymClobbered, CallbackRegs, SymCallbackRegs, Eval;
    assert ValRel(it.regs[0], s.regs[0], env);
    if it.stack != [] {
      assert FrameRel(it.stack[|it.stack| - 1], s.stack[|s.stack| - 1], env);
    }
  }

  /** The executor gives up on a step that does not trap exactly when the machine has no meaning for it or a limit
      is hit; the residue of r0 may not be returned. */
  lemma StepRefusedIff(prog: Program, canon: Region -> u64, solver: Solver, it: Item, s: CState, env: Env, nc: nat)
    requires solver.Sound() && Describes(canon, it, s, env) && !Step(prog, canon, env, s).Trapped?
    requires s.stack == [] && Fetch(prog, it.sec, it.pc) == Some(Exit) ==> !s.regs[0].Undef?
    ensures var i := Fetch(prog, it.sec, it.pc);
            SymStep(prog, canon, solver, it, nc).Bail? <==>
            Step(prog, canon, env, s).Wedged? || (i.Some? && Beyond(prog, solver, it, i.value))
  {
    var f := Fetch(prog, it.sec, it.pc);
    if f.Some? {
      match f.value
      case Alu(_, _, _, _, _) => AluStepRefused(prog, canon, solver, it, s, env, nc);
      case Ldx(_, _, _, _, _) => LdxStepRefused(prog, canon, solver, it, s, env, nc);
      case Stx(_, _, _, _) => StxStepRefused(prog, canon, solver, it, s, env, nc);
      case Endian(_, _, _, _) => EndianStepRefused(prog, canon, solver, it, s, env, nc);
      case Atomic(_, _, _, _, _) => AtomicStepRefused(prog, canon, solver, it, s, env, nc);
      case Jump(_, _, _, _, _) => JumpStepRefused(prog, canon, solver, it, s, env, nc);
      case CallHelper(hid) => HelperRefusedIff(prog, canon, solver, it, s, env, hid, nc); hide SymHelper, StepHelper;
      case Exit => ExitRefusedIff(solver, it, s, env, nc); hide SymExit, StepExit;
      case _ => hide MemRel, Eval;
    }
  }

  ghost predicate RefusedIff(prog: Program, canon: Region -> u64, solver: Solver, it: Item, s: CState, env: Env,
                             nc: nat) {
    var i := Fetch(prog, it.sec, it.pc);
    SymStep(prog, canon, solver, it, nc).Bail? <==>
    Step(prog, canon, env, s).Wedged? || (i.Some? && Beyond(prog, solver, it, i.value))
  }

  lemma AluStepRefused(prog: Program, canon: Region -> u64, solver: Solver, it: Item, s: CState, env: Env, nc: nat)
    requires Describes(canon, it, s, env) && !Step(prog, canon, env, s).Trapped?
    requires Fetch(prog, it.sec, it.pc).Some? && Fetch(prog, it.sec, it.pc).value.Alu?
    ensures RefusedIff(prog, canon, solver, it, s, env, nc)
  {
    hide SymAlu, MachineAlu, Eval, MemRel, StackRel, LogRel;
    var i := Fetch(prog, it.sec, it.pc).value;
    var operand := if i.code == 8 then SData(Const(0)) else SymOperand(it.regs, i.src, i.is64);
    var coperand := if i.code == 8 then Data(0) else OperandValue(s.regs, i.src, i.is64);
    OperandAgrees(it.regs, s.regs, i.src, i.is64, env);
    ConstValue(0, env);
    AluRefusedIff(i.code, i.is64, i.off, it.regs[i.dst], operand, s.regs[i.dst], coperand, env);
  }

  lemma LdxStepRefused(prog: Program, canon: Region -> u64, solver: Solver, it: Item, s: CState, env: Env, nc: nat)
    requires solver.Sound() && Describes(canon, it, s, env) && !Step(prog, canon, env, s).Trapped?
    requires Fetch(prog, it.sec, it.pc).Some? && Fetch(prog, it.sec, it.pc).value.Ldx?
    ensures RefusedIff(prog, canon, solver, it, s, env, nc)
  {
    hide SymLoad, MachineLoad, Eval, MemRel, StackRel, LogRel, SymDisplace, Displace, SignExtend, Blind;
    var i := Fetch(prog, it.sec, it.pc).value;
    var p, q := SymDisplace(it.regs[i.base], i.off), Displace(s.regs[i.base], i.off);
    DisplaceAgrees(it.regs[i.base], s.regs[i.base], i.off, env);
    LoadRefusedIff(canon, solver, it.mem, s.mem, env, p, q, i.size);
    if SymLoad(solver, it.mem, p, i.size).Ok? { LoadAgrees(canon, solver, it.mem, s.mem, env, p, q, i.size); }
  }

  lemma StxStepRefused(prog: Program, canon: Region -> u64, solver: Solver, it: Item, s: CState, env: Env, nc: nat)
    requires Describes(canon, it, s, env) && !Step(prog, canon, env, s).Trapped?
    requires Fetch(prog, it.sec, it.pc).Some? && Fetch(prog, it.sec, it.pc).value.Stx?
    ensures RefusedIff(prog, canon, solver, it, s, env, nc)
  {
    hide SymStore, MachineStore, Eval, MemRel, StackRel, LogRel, SymDisplace, Displace, SymOperand, OperandValue,
         BlindStore;
    var i := Fetch(prog, it.sec, it.pc).value;
    DisplaceAgrees(it.regs[i.base], s.regs[i.base], i.off, env);
    OperandAgrees(it.regs, s.regs, i.src, true, env);
    StoreRefusedIff(canon, solver, it.mem, s.mem, env, SymDisplace(it.regs[i.base], i.off),
                    Displace(s.regs[i.base], i.off), i.size, SymOperand(it.regs, i.src, true),
                    OperandValue(s.regs, i.src, true));
  }

  lemma EndianStepRefused(prog: Program, canon: Region -> u64, solver: Solver, it: Item, s: CState, env: Env, nc: nat)
    requires Describes(canon, it, s, env) && !Step(prog, canon, env, s).Trapped?
    requires Fetch(prog, it.sec, it.pc).Some? && Fetch(prog, it.sec, it.pc).value.Endian?
    ensures RefusedIff(prog, canon, solver, it, s, env, nc)
  {
    hide SymEndian, MachineEndian, Eval, MemRel, StackRel, LogRel;
    var i := Fetch(prog, it.sec, it.pc).value;
    EndianRefusedIff(i.is64, i.toBig, i.width, it.regs[i.dst], s.regs[i.dst], env);
  }

  lemma AtomicStepRefused(prog: Program, canon: Region -> u64, solver: Solver, it: Item, s: CState, env: Env, nc: nat)
    requires solver.Sound() && Describes(canon, it, s, env) && !Step(prog, canon, env, s).Trapped?
    requires Fetch(prog, it.sec, it.pc).Some? && Fetch(prog, it.sec, it.pc).value.Atomic?
    ensures RefusedIff(prog, canon, solver, it, s, env, nc)
  {
    hide SymAtomic, MachineAtomic, Eval, MemRel, RegsRel, StackRel, LogRel, Blind;
    AtomicRefusedIff(canon, solver, it.mem, it.regs, s.mem, s.regs, env, Fetch(prog, it.sec, it.pc).value);
  }

  lemma JumpStepRefused(prog: Program, canon: Region -> u64, solver: Solver, it: Item, s: CState, env: Env, nc: nat)
    requires Describes(canon, it, s, env) && !Step(prog, canon, env, s).Trapped?
    requires Fetch(prog, it.sec, it.pc).Some? && Fetch(prog, it.sec, it.pc).value.Jump?
    ensures RefusedIff(prog, canon, solver, it, s, env, nc)
  {
    hide SymCond, MachineCond, Eval, MemRel, StackRel, LogRel, SymOperand, OperandValue;
    var i := Fetch(prog, it.sec, it.pc).value;
    OperandAgrees(it.regs, s.regs, i.src, !i.is32, env);
    CondRefusedIff(i.code, i.is32, it.regs[i.dst], SymOperand(it.regs, i.src, !i.is32), s.regs[i.dst],
                   OperandValue(s.regs, i.src, !i.is32), env);
  }
}
