/** The path-forking symbolic executor: one symbolic step per instruction, and the worklist that
    drives it. */
module SymbolicStep {
  import opened Words
  import opened Terms
  import opened Memory
  import opened Machine

  const MAX_INSNS_PER_PATH: nat := 50_000
  const MAX_PATHS: nat := 4096
  const MAX_ARG: nat := 8192
  const MAX_CALL_DEPTH: nat := 8
  const MAX_CB_ITERS: nat := 8

  // ----- state -----

  type SRegs = rs: seq<SVal> | |rs| == 11 witness seq(11, _ => SData(Const(0)))

  datatype Frame =
    | Call(sec: Name, pc: int, regs: SRegs)
    | Loop(csec: Name, entry: nat, i: nat, n: Term, sec: Name, pc: int, regs: SRegs, id: nat, arg: SVal)

  /** A trace event with symbolic payload bytes. */
  datatype SEvent = SEvent(hid: nat, payload: seq<Term>)

  /** A suspended path: where it is, what it holds, and the conditions under which it is taken. */
  datatype Item = Item(sec: Name, pc: int, regs: SRegs, mem: SMem, conds: seq<Cond>, counters: Counters,
                       stack: seq<Frame>, log: seq<SEvent>)

  /** A finished path. */
  datatype Path = Path(conds: seq<Cond>, ret: Term, mem: SMem, log: seq<SEvent>)

  /** What one step makes of a path: the path it goes on with, those it queues and those that end. */
  datatype Out = Out(cur: Option<Item>, queued: seq<Item>, done: seq<Path>, clobbers: nat)

  function Goto(it: Item, clobbers: nat): (o: Out) {
    Out(Some(it), [], [], clobbers)
  }

  // ----- arithmetic -----

  function SymArith(code: nat, w: Width, off: int, x: Term, y: Term): (r: Option<Term>) {
    var a, b := if w.W64? then x else Lo32(x), if w.W64? then y else Lo32(y);
    var zero := Compare(CmpEq, w, b, Const(0));
    var shift := Bin(OpAnd, w, b, Const(w.Bits() - 1));
    match code
    case 0 => Some(Bin(OpAdd, w, a, b))
    case 1 => Some(Bin(OpSub, w, a, b))
    case 2 => Some(Bin(OpMul, w, a, b))
    case 3 => Some(If(zero, Const(0), Bin(if off == 1 then OpSDiv else OpUDiv, w, a, b)))
    case 4 => Some(Bin(OpOr, w, a, b))
    case 5 => Some(Bin(OpAnd, w, a, b))
    case 6 => Some(Bin(OpShl, w, a, shift))
    case 7 => Some(Bin(OpLShr, w, a, shift))
    case 8 => Some(Bin(OpSub, w, Const(0), a))
    case 9 => Some(If(zero, a, Bin(if off == 1 then OpSRem else OpURem, w, a, b)))
    case 10 => Some(Bin(OpXor, w, a, b))
    case 12 => Some(Bin(OpAShr, w, a, shift))
    case _ => None
  }

  function SymAlu(code: nat, is64: bool, off: int, d: SVal, s: SVal): (r: Result<SVal>) {
    var w := if is64 then W64 else W32;
    if code == 11 then
      if is64 && off == 1 then Ok(s)
      else if (off == 8 || off == 16 || off == 32) && s.SData? then
        Ok(SData(if is64 then SExt(off, s.t) else Lo32(SExt(off, s.t))))
      else if is64 then Ok(s)
      else if s.SPtr? then Bail
      else Ok(SData(Lo32(s.t)))
    else if code == 0 && is64 && d.SPtr? && s.SData? then Ok(SPtr(d.r, Bin(OpAdd, W64, d.off, s.t)))
    else if code == 0 && is64 && d.SData? && s.SPtr? then Ok(SPtr(s.r, Bin(OpAdd, W64, s.off, d.t)))
    else if code == 1 && is64 && d.SPtr? then
      if s.SPtr? then
        if s.r == d.r then Ok(SData(Bin(OpSub, W64, d.off, s.off))) else Bail
      else Ok(SPtr(d.r, Bin(OpSub, W64, d.off, s.t)))
    else if d.SPtr? || s.SPtr? then Bail
    else
      var r := SymArith(code, w, off, d.t, s.t);
      if r.None? then Bail else Ok(SData(r.value))
  }

  // ----- byte swaps -----

  /** The low n bytes of a term, byte 0 most significant. */
  function SwapTerm(t: Term, n: nat): (r: Term)
    requires n > 0
  {
    if n == 1 then Byte(0, t) else Cons8(Byte(n - 1, t), SwapTerm(t, n - 1))
  }

  /** Bytes k to n - 1 of a term, byte k least significant. */
  function LowTerm(t: Term, k: nat, n: nat): (r: Term)
    requires k < n
    decreases n - k
  {
    if k + 1 == n then Byte(k, t) else Cons8(Byte(k, t), LowTerm(t, k + 1, n))
  }

  function SymEndian(is64: bool, toBig: bool, width: int, v: SVal): (r: Result<SVal>) {
    if v.SPtr? || (width != 16 && width != 32 && width != 64) then Bail
    else Ok(SData(if is64 || toBig then SwapTerm(v.t, width / 8) else LowTerm(v.t, 0, width / 8)))
  }

  // ----- conditions -----

  function CondTerm(code: nat, w: Width, x: Term, y: Term): (r: Result<Cond>) {
    var a, b := if w.W64? then x else Lo32(x), if w.W64? then y else Lo32(y);
    match code
    case 1 => Ok(Compare(CmpEq, w, a, b))
    case 2 => Ok(Compare(CmpUgt, w, a, b))
    case 3 => Ok(Compare(CmpUge, w, a, b))
    case 4 => Ok(Compare(CmpNe, w, Bin(OpAnd, w, a, b), Const(0)))
    case 5 => Ok(Compare(CmpNe, w, a, b))
    case 6 => Ok(Compare(CmpSgt, w, a, b))
    case 7 => Ok(Compare(CmpSge, w, a, b))
    case 10 => Ok(Compare(CmpUlt, w, a, b))
    case 11 => Ok(Compare(CmpUle, w, a, b))
    case 12 => Ok(Compare(CmpSlt, w, a, b))
    case 13 => Ok(Compare(CmpSle, w, a, b))
    case _ => Bail
  }

  function SymCond(code: nat, is32: bool, d: SVal, s: SVal): (r: Result<Cond>) {
    var w := if is32 then W32 else W64;
    if d.SPtr? && s.SPtr? then
      if d.r == s.r then CondTerm(code, w, d.off, s.off) else Bail
    else if d.SPtr? then
      if code == 1 then Ok(BoolVal(false)) else if code == 5 then Ok(BoolVal(true)) else Bail
    else if s.SPtr? then Bail
    else CondTerm(code, w, d.t, s.t)
  }

  // ----- operands -----

  function SymOperand(regs: SRegs, o: Operand, wide: bool): (v: SVal)
    requires ValidOperand(o)
  {
    match o
    case Reg(r) => regs[r]
    case Imm(i) => SData(Const(if wide then Signed64(i) else i % TWO32))
  }

  function SymDisplace(p: SVal, k: int): (q: SVal) {
    match p
    case SData(t) => SData(Plus(t, k))
    case SPtr(r, off) => SPtr(r, Plus(off, k))
  }

  function SymImmediate(v: Immediate): (s: SVal) {
    match v
    case Scalar(x) => SData(Const(x))
    case GlobalAddr(name, off) => SPtr(Global(name), Const(off))
    case MapAddr(name, off) => SPtr(MapHandle(name), Const(off))
    case FuncAddr(sec, entry) => SPtr(FuncPtr(sec, entry), Const(0))
  }

  // ----- atomic operations -----

  /** The new value, computed on whole words whatever the size. */
  function AtomicTerm(aop: int, old_: Term, src: Term): (t: Option<Term>) {
    if aop == A_XCHG then Some(src)
    else
      match AtomicCode(aop)
      case Some(0) => Some(Bin(OpAdd, W64, old_, src))
      case Some(4) => Some(Bin(OpOr, W64, old_, src))
      case Some(5) => Some(Bin(OpAnd, W64, old_, src))
      case Some(10) => Some(Bin(OpXor, W64, old_, src))
      case _ => None
  }

  function SymAtomic(canon: Region -> u64, solver: Solver, m: SMem, regs: SRegs, i: Insn): (r: Result<(SRegs, SMem)>)
    requires i.Atomic? && ValidInsn(i)
  {
    if i.aop == A_LOAD_ACQ then
      var v :- SymLoad(solver, m, SymDisplace(regs[i.other], i.off), i.size);
      Ok((regs[i.dst := v], m))
    else if regs[i.other].SPtr? then Bail
    else
      var src := regs[i.other].t;
      var p := SymDisplace(regs[i.dst], i.off);
      if i.aop == A_STORE_REL then
        var m' :- SymStore(canon, solver, m, p, i.size, SData(src));
        Ok((regs, m'))
      else if i.size != 4 && i.size != 8 then Bail
      else
        var old_ :- SymLoad(solver, m, p, i.size);
        if old_.SPtr? then Bail
        else if i.aop == A_CMPXCHG then
          if regs[0].SPtr? then Bail
          else
            var same := Compare(CmpEq, AtomicWidth(i.size), old_.t, regs[0].t);
            var m' :- SymStore(canon, solver, m, p, i.size, SData(If(same, src, old_.t)));
            Ok((regs[0 := old_], m'))
        else
          var t := AtomicTerm(i.aop, old_.t, src);
          if t.None? then Bail
          else
            var m' :- SymStore(canon, solver, m, p, i.size, SData(t.value));
            Ok((if Fetches(i.aop) then regs[i.other := old_] else regs, m'))
  }

  // ----- helpers -----

  /** r0 gets the answer, r1..r5 fresh residue. */
  function SymClobbered(regs: SRegs, ret: SVal, nc: nat): (rs: SRegs) {
    [ret] + seq(5, k requires 0 <= k < 5 => SData(Sym(Clobber(nc + 1 + k)))) + regs[6..]
  }

  function SymCallbackRegs(i: nat, id: nat, arg: SVal): (rs: SRegs) {
    seq(11, k requires 0 <= k < 11 =>
          if k == 1 then SData(Const(i % TWO32))
          else if k == 2 then arg
          else if k == 3 || k == 4 then SData(Const(0))
          else if k == 10 then SPtr(CbStack(id), Const(STACK_SIZE))
          else SData(Sym(CbClobber(id, i, k))))
  }

  function ConstBytes(bs: seq<u8>): (ts: seq<Term>)
    ensures |ts| == |bs|
    ensures forall i :: 0 <= i < |bs| ==> ts[i] == Const(bs[i])
  {
    seq(|bs|, i requires 0 <= i < |bs| => Const(bs[i]))
  }

  function WordBytes(t: Term): (ts: seq<Term>)
    ensures |ts| == 8
    ensures forall k :: 0 <= k < 8 ==> ts[k] == Byte(k, t)
  {
    seq(8, k requires 0 <= k < 8 => Byte(k, t))
  }

  function SymBytes(solver: Solver, m: SMem, p: SVal, k: nat, n: nat): (r: Result<seq<Term>>)
    requires k <= n
    decreases n - k
  {
    if k == n then Ok([])
    else
      var v :- SymLoad(solver, m, SymDisplace(p, k), 1);
      if v.SPtr? then Bail
      else
        var rest :- SymBytes(solver, m, p, k + 1, n);
        Ok([Byte(0, v.t)] + rest)
  }

  function SymArgBytes(solver: Solver, m: SMem, regs: SRegs, spec: ArgSpec): (r: Result<seq<Term>>)
    requires spec.r <= 5 && (spec.MemArg? ==> spec.len <= 5)
  {
    match spec
    case ValArg(i) => if regs[i].SPtr? then Bail else Ok(WordBytes(regs[i].t))
    case MemArg(i, len) =>
      if regs[len].SPtr? then Bail
      else
        var x :- ConcreteAddr(solver, regs[len].t);
        var n := x % TWO32;
        if n > MAX_ARG then Bail
        else
          var bytes :- SymBytes(solver, m, regs[i], 0, n);
          Ok(ConstBytes(LeBytes(n, 4)) + bytes)
  }

  function SymPayload(solver: Solver, m: SMem, regs: SRegs, specs: seq<ArgSpec>): (r: Result<seq<Term>>)
    requires forall s :: s in specs ==> s.r <= 5 && (s.MemArg? ==> s.len <= 5)
  {
    if specs == [] then Ok([])
    else
      var first :- SymArgBytes(solver, m, regs, specs[0]);
      var rest :- SymPayload(solver, m, regs, specs[1..]);
      Ok(first + rest)
  }

  function OracleTerm(hid: nat, bits: nat, idx: nat): (t: Term) {
    var t := Oracle(hid, idx, bits);
    if OracleMask(hid).Some? then Bin(OpAnd, W64, t, Const(OracleMask(hid).value)) else t
  }

  /** The question a map lookup asks, as the map's name and the event payload. */
  function SymLookupQuestion(prog: Program, solver: Solver, it: Item): (q: Result<(Name, seq<Term>)>) {
    var map_ := it.regs[1];
    if map_.SData? || !map_.r.MapHandle? || map_.r.name !in prog.keySize then Bail
    else
      var name := map_.r.name;
      if prog.keySize[name] > MAX_ARG then Bail
      else
        var key :- SymBytes(solver, it.mem, it.regs[2], 0, prog.keySize[name]);
        Ok((name, ConstBytes([|name| % 256] + name) + key))
  }

  /** The path forks on whether the lookup finds an entry. */
  function SymLookup(prog: Program, solver: Solver, it: Item, nc: nat): (r: Result<Out>) {
    var idx := it.counters.Calls(H_MAP_LOOKUP);
    var q :- SymLookupQuestion(prog, solver, it);
    var (name, payload) := q;
    var after := it.(pc := it.pc + 1, counters := it.counters.Called(H_MAP_LOOKUP),
                     log := it.log + [SEvent(H_MAP_LOOKUP, payload)]);
    var absent := NullAnswer(H_MAP_LOOKUP, idx);
    var found := after.(regs := SymClobbered(it.regs, SPtr(MapVal(H_MAP_LOOKUP, name, idx), Const(0)), nc),
                        conds := it.conds + [Not(absent)]);
    var missing := after.(regs := SymClobbered(it.regs, SData(Const(0)), nc + 5), conds := it.conds + [absent]);
    Ok(Out(Some(found), [missing], [], nc + 10))
  }

  function LoopPayload(trips: Option<u64>): (ts: seq<Term>) {
    ConstBytes([0] + LeBytes(if trips.Some? then trips.value % TWO32 else 0xFFFF_FFFF, 4))
  }

  /** bpf_loop enters its callback inline, and forks on a zero trip count. */
  function SymLoop(solver: Solver, it: Item, nc: nat): (r: Result<Out>) {
    var id := it.counters.cbframe + 1;
    if |it.stack| >= MAX_CALL_DEPTH then Bail
    else if it.regs[2].SData? || !it.regs[2].r.FuncPtr? || it.regs[1].SPtr? then Bail
    else
      var target := it.regs[2].r;
      var n := Lo32(solver.simplify(it.regs[1].t));
      var trips := solver.literal(n);
      var after := it.(counters := it.counters.(cbframe := id), log := it.log + [SEvent(H_LOOP, LoopPayload(trips))]);
      var none := after.(pc := it.pc + 1, regs := SymClobbered(it.regs, SData(Const(0)), nc));
      if trips == Some(0) then Ok(Goto(none, nc + 5))
      else
        var enter := solver.simplifyCond(Compare(CmpUgt, W64, n, Const(0)));
        var skip := solver.simplifyCond(Compare(CmpEq, W64, n, Const(0)));
        var queued := if skip != BoolVal(false) && solver.feasible(it.conds + [skip])
                      then [none.(conds := it.conds + [skip])] else [];
        if !solver.feasible(it.conds + [enter]) then Ok(Out(None, queued, [], nc + 5))
        else
          var frame := Loop(target.sec, target.entry, 0, n, it.sec, it.pc + 1, it.regs, id, it.regs[3]);
          var first := after.(sec := target.sec, pc := target.entry, regs := SymCallbackRegs(0, id, it.regs[3]),
                              stack := it.stack + [frame],
                              conds := if enter == BoolVal(true) then it.conds else it.conds + [enter]);
          Ok(Out(Some(first), queued, [], nc + 5))
  }

  function SymHelper(prog: Program, solver: Solver, it: Item, hid: nat, nc: nat): (r: Result<Out>) {
    var idx := it.counters.Calls(hid);
    if hid == H_MAP_LOOKUP then SymLookup(prog, solver, it, nc)
    else if hid == H_LOOP then SymLoop(solver, it, nc)
    else if OracleBits(hid).Some? then
      var ret := SData(OracleTerm(hid, OracleBits(hid).value, idx));
      Ok(Goto(it.(pc := it.pc + 1, regs := SymClobbered(it.regs, ret, nc), counters := it.counters.Called(hid)),
              nc + 5))
    else if EventArgs(hid).Some? then
      var payload :- SymPayload(solver, it.mem, it.regs, EventArgs(hid).value);
      var ret := SData(SExt(32, Oracle(hid, idx, 32)));
      Ok(Goto(it.(pc := it.pc + 1, regs := SymClobbered(it.regs, ret, nc), counters := it.counters.Called(hid),
                  log := it.log + [SEvent(hid, payload)]), nc + 5))
    else Bail
  }

  /** Return from a callback: go on with the next iteration, or hand the count back to the caller. */
  function SymLoopExit(solver: Solver, it: Item, nc: nat): (r: Result<Out>)
    requires it.stack != [] && it.stack[|it.stack| - 1].Loop?
  {
    var top, rest := it.stack[|it.stack| - 1], it.stack[..|it.stack| - 1];
    if it.regs[0].SPtr? then Bail
    else
      var r0 := it.regs[0].t;
      var next := top.i + 1;
      var limit := Const(next % TWO64);
      var more := solver.simplifyCond(Compare(CmpUgt, W64, top.n, limit));
      var go := solver.simplifyCond(Both(more, Compare(CmpEq, W64, r0, Const(0))));
      var stop := solver.simplifyCond(Either(Compare(CmpUle, W64, top.n, limit), Compare(CmpNe, W64, r0, Const(0))));
      var back := it.(sec := top.sec, pc := top.pc, regs := SymClobbered(top.regs, SData(limit), nc),
                      conds := it.conds + [stop], stack := rest);
      var queued := if stop != BoolVal(false) && solver.feasible(it.conds + [stop]) then [back] else [];
      if go == BoolVal(false) || !solver.feasible(it.conds + [go]) then Ok(Out(None, queued, [], nc + 5))
      else if next >= MAX_CB_ITERS then Bail
      else
        var again := it.(sec := top.csec, pc := top.entry, regs := SymCallbackRegs(next, top.id, top.arg),
                         conds := it.conds + [go], stack := rest + [top.(i := next)]);
        Ok(Out(Some(again), queued, [], nc + 5))
  }

  function SymExit(solver: Solver, it: Item, nc: nat): (r: Result<Out>) {
    if it.stack == [] then
      if it.regs[0].SPtr? then Bail
      else Ok(Out(None, [], [Path(it.conds, it.regs[0].t, it.mem, it.log)], nc))
    else
      var top, rest := it.stack[|it.stack| - 1], it.stack[..|it.stack| - 1];
      match top
      case Loop(_, _, _, _, _, _, _, _, _) => SymLoopExit(solver, it, nc)
      case Call(sec, pc, regs) =>
        Ok(Goto(it.(sec := sec, pc := pc, regs := regs[0 := it.regs[0]], stack := rest), nc))
  }

  function SymJump(solver: Solver, it: Item, cond: Cond, off: int, nc: nat): (o: Out) {
    var c := solver.simplifyCond(cond);
    var taken, next := it.pc + 1 + off, it.pc + 1;
    if c == BoolVal(true) then Goto(it.(pc := taken), nc)
    else if c == BoolVal(false) then Goto(it.(pc := next), nc)
    else
      var queued := if solver.feasible(it.conds + [c]) then [it.(pc := taken, conds := it.conds + [c])] else [];
      var cur := if solver.feasible(it.conds + [Not(c)])
                 then Some(it.(pc := next, conds := it.conds + [Not(c)])) else None;
      Out(cur, queued, [], nc)
  }

  /** One symbolic step. */
  function SymStep(prog: Program, canon: Region -> u64, solver: Solver, it: Item, nc: nat): (r: Result<Out>) {
    var fetched := Fetch(prog, it.sec, it.pc);
    if fetched.None? then Bail
    else
      match fetched.value
      case LdImm64(dst, v) => Ok(Goto(it.(pc := it.pc + 2, regs := it.regs[dst := SymImmediate(v)]), nc))
      case Alu(code, is64, dst, src, off) =>
        var operand := if code == 8 then SData(Const(0)) else SymOperand(it.regs, src, is64);
        var v :- SymAlu(code, is64, off, it.regs[dst], operand);
        Ok(Goto(it.(pc := it.pc + 1, regs := it.regs[dst := v]), nc))
      case Ldx(size, signed, dst, base, off) =>
        var v :- SymLoad(solver, it.mem, SymDisplace(it.regs[base], off), size);
        if !signed then Ok(Goto(it.(pc := it.pc + 1, regs := it.regs[dst := v]), nc))
        else if v.SPtr? then Bail
        else
          var wide := if size < 8 then SData(SExt(8 * size, v.t)) else v;
          Ok(Goto(it.(pc := it.pc + 1, regs := it.regs[dst := wide]), nc))
      case Stx(size, base, off, src) =>
        var m :- SymStore(canon, solver, it.mem, SymDisplace(it.regs[base], off), size, SymOperand(it.regs, src, true));
        Ok(Goto(it.(pc := it.pc + 1, mem := m), nc))
      case Endian(is64, toBig, dst, width) =>
        var v :- SymEndian(is64, toBig, width, it.regs[dst]);
        Ok(Goto(it.(pc := it.pc + 1, regs := it.regs[dst := v]), nc))
      case Atomic(_, _, _, _, _) =>
        var r :- SymAtomic(canon, solver, it.mem, it.regs, fetched.value);
        Ok(Goto(it.(pc := it.pc + 1, regs := r.0, mem := r.1), nc))
      case Ja(off) => Ok(Goto(it.(pc := it.pc + 1 + off), nc))
      case Jump(code, is32, dst, src, off) =>
        var c :- SymCond(code, is32, it.regs[dst], SymOperand(it.regs, src, !is32));
        Ok(SymJump(solver, it, c, off, nc))
      case CallLocal(sec, entry) =>
        if |it.stack| >= MAX_CALL_DEPTH then Bail
        else
          var frame := it.counters.frame + 1;
          Ok(Goto(it.(sec := sec, pc := entry, regs := it.regs[10 := SPtr(Stack(frame), Const(STACK_SIZE))],
                      counters := it.counters.(frame := frame),
                      stack := it.stack + [Call(it.sec, it.pc + 1, it.regs)]), nc))
      case CallHelper(hid) => SymHelper(prog, solver, it, hid, nc)
      case Exit => SymExit(solver, it, nc)
  }

  function SymStart(sec: Name, entry: int): (it: Item) {
    Item(sec, entry,
         seq(11, k requires 0 <= k < 11 =>
               if k == 1 then SPtr(Ctx, Const(0))
               else if k == 10 then SPtr(Stack(0), Const(STACK_SIZE))
               else SData(Sym(Uninit(k)))),
         SMem(map[], map[]), [], Counters(map[], 0, 0), [], [])
  }
}
