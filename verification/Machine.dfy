/** The BPF machine the symbolic executor describes: 64- and 32-bit arithmetic, loads and stores on
    block memory, conditional jumps, bpf2bpf calls and a few helpers, one instruction a step.
    Instruction semantics follow sections 4.1 to 4.3 and 5.1 to 5.3 of RFC 9669. */
module Machine {
  import opened Words
  import opened Terms
  import opened Memory

  const STACK_SIZE: u64 := 512

  // ----- instructions -----

  datatype Operand = Reg(r: nat) | Imm(i: int)

  datatype Immediate =
    | Scalar(v: u64)
    | GlobalAddr(name: Name, off: u64)
    | MapAddr(name: Name, off: u64)
    | FuncAddr(sec: Name, entry: nat)

  datatype Insn =
    | LdImm64(dst: nat, val: Immediate)
    | SecondSlot
    | Alu(code: nat, is64: bool, dst: nat, src: Operand, off: int)
    | Ldx(size: nat, signed: bool, dst: nat, base: nat, off: int)
    | Stx(size: nat, base: nat, off: int, src: Operand)
    | Endian(is64: bool, toBig: bool, dst: nat, width: int)
    | Atomic(size: nat, aop: int, dst: nat, other: nat, off: int)
    | Ja(off: int)
    | Jump(code: nat, is32: bool, dst: nat, src: Operand, off: int)
    | CallLocal(sec: Name, entry: nat)
    | CallHelper(hid: nat)
    | Exit
    | Other

  datatype Program = Program(code: map<Name, seq<Insn>>, keySize: map<Name, nat>)

  predicate ValidOperand(o: Operand) { o.Reg? ==> o.r <= 10 }

  predicate ValidSize(n: nat) { n == 1 || n == 2 || n == 4 || n == 8 }

  /** Registers are r0..r10 and access sizes are 1, 2, 4 or 8. */
  predicate ValidInsn(i: Insn) {
    match i
    case LdImm64(dst, _) => dst <= 10
    case Alu(_, _, dst, src, _) => dst <= 10 && ValidOperand(src)
    case Ldx(size, _, dst, base, _) => ValidSize(size) && dst <= 10 && base <= 10
    case Stx(size, base, _, src) => ValidSize(size) && base <= 10 && ValidOperand(src)
    case Jump(_, _, dst, src, _) => dst <= 10 && ValidOperand(src)
    case Endian(_, _, dst, _) => dst <= 10
    case Atomic(size, _, dst, other, _) => ValidSize(size) && dst <= 10 && other <= 10
    case SecondSlot => false
    case Other => false
    case _ => true
  }

  function Fetch(prog: Program, sec: Name, pc: int): (i: Option<Insn>)
    ensures i.Some? ==> ValidInsn(i.value)
  {
    if sec in prog.code && 0 <= pc < |prog.code[sec]| && ValidInsn(prog.code[sec][pc])
    then Some(prog.code[sec][pc])
    else None
  }

  /** The registers an instruction names. */
  function Named(i: Insn): (rs: set<nat>) {
    match i
    case LdImm64(dst, _) => {dst}
    case Alu(_, _, dst, src, _) => {dst} + Used(src)
    case Ldx(_, _, dst, base, _) => {dst, base}
    case Stx(_, base, _, src) => {base} + Used(src)
    case Endian(_, _, dst, _) => {dst}
    case Atomic(_, _, dst, other, _) => {dst, other}
    case Jump(_, _, dst, src, _) => {dst} + Used(src)
    case _ => {}
  }

  function Used(o: Operand): (rs: set<nat>) { if o.Reg? then {o.r} else {} }

  /** Every instruction inside its section is fetched, except the second half of a wide one, what was not decoded,
      and one that names a register above r10 or an access size other than 1, 2, 4 and 8. */
  lemma FetchIff(prog: Program, sec: Name, pc: int)
    ensures Fetch(prog, sec, pc).Some? <==>
            && sec in prog.code && 0 <= pc < |prog.code[sec]|
            && var i := prog.code[sec][pc];
               && !i.SecondSlot? && !i.Other? && (forall r :: r in Named(i) ==> r <= 10)
               && (i.Ldx? || i.Stx? || i.Atomic? ==> i.size in {1, 2, 4, 8})
    ensures Fetch(prog, sec, pc).Some? ==> Fetch(prog, sec, pc).value == prog.code[sec][pc]
  {
    if sec in prog.code && 0 <= pc < |prog.code[sec]| {
      var i := prog.code[sec][pc];
      match i
      case Alu(_, _, dst, src, _) => assert dst in Named(i) && (src.Reg? ==> src.r in Named(i));
      case Ldx(_, _, dst, base, _) => assert dst in Named(i) && base in Named(i);
      case Stx(_, base, _, src) => assert base in Named(i) && (src.Reg? ==> src.r in Named(i));
      case Atomic(_, _, dst, other, _) => assert dst in Named(i) && other in Named(i);
      case Jump(_, _, dst, src, _) => assert dst in Named(i) && (src.Reg? ==> src.r in Named(i));
      case LdImm64(dst, _) => assert dst in Named(i);
      case Endian(_, _, dst, _) => assert dst in Named(i);
      case _ =>
    }
  }

  // ----- helper tables -----

  const H_MAP_LOOKUP: nat := 1
  const H_LOOP: nat := 181

  /** Argument-free helpers and the width of their answer. */
  function OracleBits(hid: nat): (w: Option<nat>) {
    if hid in {7, 8, 42} then Some(32)
    else if hid in {5, 14, 15, 35, 125, 158, 160, 208, 173, 174, 185, 188} then Some(64)
    else None
  }

  /** pid_tgid answers have both halves below 2^31. */
  function OracleMask(hid: nat): (m: Option<u64>) {
    if hid == 14 then Some(0x7FFF_FFFF_7FFF_FFFF) else None
  }

  /** How an argument enters a trace event: a register's eight bytes, or a length and the bytes
      behind a pointer. */
  datatype ArgSpec = ValArg(r: nat) | MemArg(r: nat, len: nat)

  function EventArgs(hid: nat): (specs: Option<seq<ArgSpec>>)
    ensures specs.Some? ==> forall s :: s in specs.value ==> s.r <= 5 && (s.MemArg? ==> s.len <= 5)
    ensures specs.Some? ==> |specs.value| <= 3 && OracleBits(hid).None?
    ensures specs.Some? ==> hid != H_LOOP && hid != H_MAP_LOOKUP && hid < 256
  {
    match hid
    case 23 => Some([ValArg(1), ValArg(2)])
    case 39 => Some([ValArg(2)])
    case 43 => Some([ValArg(2), ValArg(3)])
    case 49 => Some([ValArg(2), ValArg(3), MemArg(4, 5)])
    case 50 => Some([ValArg(2), ValArg(3), ValArg(4)])
    case 21 => Some([MemArg(2, 3), ValArg(4)])
    case 64 => Some([MemArg(2, 3)])
    case 73 => Some([ValArg(2), MemArg(3, 4)])
    case 13 => Some([ValArg(2), ValArg(3)])
    case 31 => Some([ValArg(2), ValArg(3)])
    case 32 => Some([ValArg(2)])
    case 38 => Some([ValArg(2), ValArg(3)])
    case 155 => Some([ValArg(1), ValArg(2)])
    case 30 => Some([MemArg(2, 3)])
    case _ => None
  }

  // ----- state -----

  /** A side effect the environment can see. */
  datatype Event = Event(hid: nat, payload: seq<u8>)

  datatype Counters = Counters(calls: map<nat, nat>, frame: nat, cbframe: nat) {
    function Calls(hid: nat): (n: nat) {
      if hid in calls then calls[hid] else 0
    }
    function Called(hid: nat): (c: Counters) {
      this.(calls := calls[hid := Calls(hid) + 1])
    }
  }

  type CRegs = rs: seq<CVal> | |rs| == 11 witness seq(11, _ => Undef)

  datatype CFrame =
    | CCall(sec: Name, pc: int, regs: CRegs)
    | CLoop(csec: Name, entry: nat, i: nat, n: u64, sec: Name, pc: int, regs: CRegs, id: nat, arg: CVal)

  datatype CState =
    | Running(sec: Name, pc: int, regs: CRegs, mem: CMem, counters: Counters, stack: seq<CFrame>, events: seq<Event>)
    | Halted(ret: CVal, finalMem: CMem, trail: seq<Event>)
    | Trapped(why: Trap)
    | Wedged

  function Failed<T>(a: Access<T>): (s: CState)
    requires !a.Fine?
  {
    if a.Fault? then Trapped(a.why) else Wedged
  }

  // ----- operands -----

  function Signed64(i: int): (v: u64) { i % TWO64 }

  function OperandValue(regs: CRegs, o: Operand, wide: bool): (v: CVal)
    requires ValidOperand(o)
  {
    match o
    case Reg(r) => regs[r]
    case Imm(i) => Data(if wide then Signed64(i) else i % TWO32)
  }

  function Displace(p: CVal, k: int): (q: CVal) {
    match p
    case Undef => Undef
    case Data(v) => Data((v + Signed64(k)) % TWO64)
    case Ptr(r, off) => Ptr(r, (off + Signed64(k)) % TWO64)
  }

  // ----- arithmetic -----

  function Arith(code: nat, w: Width, off: int, x: u64, y: u64): (r: Option<u64>) {
    var m := w.Modulus();
    var a, b := x % m, y % m;
    var sa, sb := ToSigned(m, a), ToSigned(m, b);
    var sh := b % w.Bits();
    match code
    case 0 => Some((a + b) % m)
    case 1 => Some((a - b) % m)
    case 2 => Some((a * b) % m)
    case 3 => if b == 0 then Some(0) else if off == 1 then Some(TruncDiv(sa, sb) % m) else Some((a / b) % m)
    case 4 => Some(BitOr(a, b) % m)
    case 5 => Some(BitAnd(a, b) % m)
    case 6 => Some((a * Pow2(sh)) % m)
    case 7 => Some((a / Pow2(sh)) % m)
    case 8 => Some((-a) % m)
    case 9 => if b == 0 then Some(a) else if off == 1 then Some(TruncRem(sa, sb) % m) else Some((a % b) % m)
    case 10 => Some(BitXor(a, b) % m)
    case 12 => Some((sa / Pow2(sh)) % m)
    case _ => None
  }

  /** Move of a sign-extended low part; a 32-bit move clears the upper half. */
  function MoveSigned(is64: bool, bits: nat, v: u64): (r: u64)
    requires bits == 8 || bits == 16 || bits == 32
  {
    if is64 then SignExtend(bits, v)
    else
      var m := if bits == 8 then 0x100 else if bits == 16 then 0x1_0000 else TWO32;
      ToSigned(m, v % m) % TWO32
  }

  function MachineAlu(code: nat, is64: bool, off: int, d: CVal, s: CVal): (r: Access<CVal>) {
    var w := if is64 then W64 else W32;
    if code == 11 then
      match s
      case Undef => Fault(Residue)
      case Ptr(_, _) => if is64 then Fine(s) else Stuck
      case Data(v) =>
        if is64 && off == 1 then Fine(s)
        else if off == 8 || off == 16 || off == 32 then Fine(Data(MoveSigned(is64, off, v)))
        else Fine(Data(v % w.Modulus()))
    else if d.Undef? || s.Undef? then Fault(Residue)
    else if code == 0 && is64 && d.Ptr? && s.Data? then Fine(Ptr(d.r, (d.off + s.v) % TWO64))
    else if code == 0 && is64 && d.Data? && s.Ptr? then Fine(Ptr(s.r, (s.off + d.v) % TWO64))
    else if code == 1 && is64 && d.Ptr? && s.Ptr? && s.r == d.r then Fine(Data((d.off - s.off) % TWO64))
    else if code == 1 && is64 && d.Ptr? && s.Data? then Fine(Ptr(d.r, (d.off - s.v) % TWO64))
    else if d.Data? && s.Data? then
      var r := Arith(code, w, off, d.v, s.v);
      if r.None? then Stuck else Fine(Data(r.value))
    else Stuck
  }

  // ----- byte swaps -----

  /** The low n bytes in reverse order, zero-extended. */
  function Swapped(v: u64, n: nat): (r: u64)
    requires n <= 8
  {
    Pow256Bound(n);
    LeValue(SwapBytes(v, n))
  }

  /** The low n bytes, zero-extended. */
  function Truncated(v: u64, n: nat): (r: u64)
    requires n <= 8
  {
    Pow256Bound(n);
    v % Pow256(n)
  }

  /** On a little-endian machine conversion to little endian only truncates; conversion to big endian and
      the unconditional swap reverse the bytes. */
  function MachineEndian(is64: bool, toBig: bool, width: int, v: CVal): (r: Access<CVal>) {
    match v
    case Undef => Fault(Residue)
    case Ptr(_, _) => Stuck
    case Data(x) =>
      if width != 16 && width != 32 && width != 64 then Stuck
      else Fine(Data(if is64 || toBig then Swapped(x, width / 8) else Truncated(x, width / 8)))
  }

  // ----- atomic operations -----

  const A_LOAD_ACQ: int := 0x100
  const A_STORE_REL: int := 0x110
  const A_CMPXCHG: int := 0xF1
  const A_XCHG: int := 0xE1

  function AtomicWidth(size: nat): (w: Width) { if size == 4 then W32 else W64 }

  /** The ALU code of an atomic operation, with or without the fetch bit. */
  function AtomicCode(aop: int): (code: Option<nat>) {
    if aop == 0x00 || aop == 0x01 then Some(0)
    else if aop == 0x40 || aop == 0x41 then Some(4)
    else if aop == 0x50 || aop == 0x51 then Some(5)
    else if aop == 0xA0 || aop == 0xA1 then Some(10)
    else None
  }

  /** Whether the old value goes to the source register. */
  predicate Fetches(aop: int) { aop == A_XCHG || aop % 2 == 1 }

  /** What an exchange or a read-modify-write of that many bytes leaves in memory. */
  function AtomicNew(aop: int, size: nat, old_: u64, src: u64): (v: Option<u64>) {
    if aop == A_XCHG then Some(src)
    else if AtomicCode(aop).Some? then Arith(AtomicCode(aop).value, AtomicWidth(size), 0, old_, src)
    else None
  }

  /** Registers and memory after an atomic instruction, executed alone. */
  ghost function MachineAtomic(canon: Region -> u64, m: CMem, env: Env, regs: CRegs,
                               i: Insn): (r: Access<(CRegs, CMem)>)
    requires i.Atomic? && ValidInsn(i)
  {
    if i.aop == A_LOAD_ACQ then
      var v :- MachineLoad(m, env, Displace(regs[i.other], i.off), i.size);
      Fine((regs[i.dst := v], m))
    else if regs[i.other].Undef? then Fault(Residue)
    else if regs[i.other].Ptr? then Stuck
    else
      var src := regs[i.other].v;
      var p := Displace(regs[i.dst], i.off);
      if i.aop == A_STORE_REL then
        var m' :- MachineStore(canon, m, p, i.size, Data(src));
        Fine((regs, m'))
      else if i.size != 4 && i.size != 8 then Stuck
      else
        var old_ :- MachineLoad(m, env, p, i.size);
        if !old_.Data? then Stuck
        else if i.aop == A_CMPXCHG then
          if regs[0].Undef? then Fault(Residue)
          else if regs[0].Ptr? then Stuck
          else
            var w := AtomicWidth(i.size).Modulus();
            var m' :- MachineStore(canon, m, p, i.size, Data(if old_.v % w == regs[0].v % w then src else old_.v));
            Fine((regs[0 := old_], m'))
        else
          var v := AtomicNew(i.aop, i.size, old_.v, src);
          if v.None? then Stuck
          else
            var m' :- MachineStore(canon, m, p, i.size, Data(v.value));
            Fine((if Fetches(i.aop) then regs[i.other := old_] else regs, m'))
  }

  // ----- conditions -----

  function CondHolds(code: nat, w: Width, x: u64, y: u64): (r: Option<bool>) {
    var m := w.Modulus();
    var a, b := x % m, y % m;
    var sa, sb := ToSigned(m, a), ToSigned(m, b);
    match code
    case 1 => Some(a == b)
    case 2 => Some(a > b)
    case 3 => Some(a >= b)
    case 4 => Some(BitAnd(a, b) != 0)
    case 5 => Some(a != b)
    case 6 => Some(sa > sb)
    case 7 => Some(sa >= sb)
    case 10 => Some(a < b)
    case 11 => Some(a <= b)
    case 12 => Some(sa < sb)
    case 13 => Some(sa <= sb)
    case _ => None
  }

  /** Pointers into one block compare by offset; a pointer never equals a scalar. */
  function MachineCond(code: nat, is32: bool, d: CVal, s: CVal): (r: Access<bool>) {
    var w := if is32 then W32 else W64;
    if d.Undef? || s.Undef? then Fault(Residue)
    else
      var verdict :=
        if d.Data? && s.Data? then CondHolds(code, w, d.v, s.v)
        else if d.Ptr? && s.Ptr? && d.r == s.r then CondHolds(code, w, d.off, s.off)
        else if d.Ptr? && s.Data? && code == 1 then Some(false)
        else if d.Ptr? && s.Data? && code == 5 then Some(true)
        else None;
      if verdict.Some? then Fine(verdict.value) else Stuck
  }

  // ----- calls -----

  function Clobbered(regs: CRegs, ret: CVal): (rs: CRegs) {
    [ret, Undef, Undef, Undef, Undef, Undef] + regs[6..]
  }

  /** A subprogram starts with its arguments, its own frame and nothing else. */
  function CalleeRegs(regs: CRegs, frame: nat): (rs: CRegs) {
    [Undef] + regs[1..6] + [Undef, Undef, Undef, Undef, Ptr(Stack(frame), STACK_SIZE)]
  }

  function CallbackRegs(i: nat, id: nat, arg: CVal): (rs: CRegs) {
    [Undef, Data(i % TWO32), arg, Data(0), Data(0), Undef, Undef, Undef, Undef, Undef, Ptr(CbStack(id), STACK_SIZE)]
  }

  ghost function MachineBytes(m: CMem, env: Env, p: CVal, k: nat, n: nat): (bs: Access<seq<u8>>)
    requires k <= n
    decreases n - k
  {
    if k == n then Fine([])
    else
      var v :- MachineLoad(m, env, Displace(p, k), 1);
      if !v.Data? then Stuck
      else
        var rest :- MachineBytes(m, env, p, k + 1, n);
        Fine([v.v % 256] + rest)
  }

  function ValBytes(v: CVal): (bs: Access<seq<u8>>) {
    match v
    case Undef => Fault(Residue)
    case Ptr(_, _) => Stuck
    case Data(x) => Fine(LeBytes(x, 8))
  }

  ghost function ArgBytes(m: CMem, env: Env, regs: CRegs, spec: ArgSpec): (bs: Access<seq<u8>>)
    requires spec.r <= 5 && (spec.MemArg? ==> spec.len <= 5)
  {
    match spec
    case ValArg(r) => ValBytes(regs[r])
    case MemArg(r, len) =>
      match regs[len]
      case Undef => Fault(Residue)
      case Ptr(_, _) => Stuck
      case Data(x) =>
        var n := x % TWO32;
        var bytes :- MachineBytes(m, env, regs[r], 0, n);
        Fine(LeBytes(n, 4) + bytes)
  }

  ghost function Payload(m: CMem, env: Env, regs: CRegs, specs: seq<ArgSpec>): (bs: Access<seq<u8>>)
    requires forall s :: s in specs ==> s.r <= 5 && (s.MemArg? ==> s.len <= 5)
  {
    if specs == [] then Fine([])
    else
      var first :- ArgBytes(m, env, regs, specs[0]);
      var rest :- Payload(m, env, regs, specs[1..]);
      Fine(first + rest)
  }

  function OracleAnswer(hid: nat, bits: nat, raw: u64): (v: u64) {
    var v := if bits == 32 then raw % TWO32 else raw;
    if OracleMask(hid).Some? then BitAnd(v, OracleMask(hid).value) else v
  }

  /** A helper's error return: a 32-bit answer sign-extended. */
  ghost function ErrnoAnswer(env: Env, hid: nat, idx: nat): (v: u64) {
    SignExtend(32, env.oracle(hid, idx) % TWO32)
  }

  /** A map lookup asks with the map's name and the key's bytes. */
  ghost function LookupQuestion(prog: Program, s: CState, env: Env): (q: Access<(Name, seq<u8>)>)
    requires s.Running?
  {
    match s.regs[1]
    case Undef => Fault(Residue)
    case Data(_) => Stuck
    case Ptr(r, _) =>
      if !r.MapHandle? || r.name !in prog.keySize then Stuck
      else
        var key :- MachineBytes(s.mem, env, s.regs[2], 0, prog.keySize[r.name]);
        Fine((r.name, [|r.name| % 256] + r.name + key))
  }

  ghost function StepLookup(prog: Program, env: Env, s: CState): (s': CState)
    requires s.Running?
  {
    var idx := s.counters.Calls(H_MAP_LOOKUP);
    var q := LookupQuestion(prog, s, env);
    if !q.Fine? then Failed(q)
    else
      var (name, payload) := q.value;
      var ret := if env.isNull(H_MAP_LOOKUP, idx) then Data(0) else Ptr(MapVal(H_MAP_LOOKUP, name, idx), 0);
      s.(pc := s.pc + 1, regs := Clobbered(s.regs, ret), counters := s.counters.Called(H_MAP_LOOKUP),
         events := s.events + [Event(H_MAP_LOOKUP, payload)])
  }

  /** bpf_loop runs its callback for i = 0, 1, ... while i < n and the callback returns 0. */
  function StepLoop(s: CState): (s': CState)
    requires s.Running?
  {
    var id := s.counters.cbframe + 1;
    if s.regs[1].Undef? || s.regs[2].Undef? then Trapped(Residue)
    else if !s.regs[1].Data? || !s.regs[2].Ptr? || !s.regs[2].r.FuncPtr? then Wedged
    else
      var n := s.regs[1].v % TWO32;
      var target := s.regs[2].r;
      var s1 := s.(counters := s.counters.(cbframe := id), events := s.events + [Event(H_LOOP, [])]);
      if n == 0 then s1.(pc := s.pc + 1, regs := Clobbered(s.regs, Data(0)))
      else
        var frame := CLoop(target.sec, target.entry, 0, n, s.sec, s.pc + 1, s.regs, id, s.regs[3]);
        s1.(sec := target.sec, pc := target.entry, regs := CallbackRegs(0, id, s.regs[3]), stack := s.stack + [frame])
  }

  ghost function StepHelper(prog: Program, env: Env, s: CState, hid: nat): (s': CState)
    requires s.Running?
  {
    var idx := s.counters.Calls(hid);
    if hid == H_MAP_LOOKUP then StepLookup(prog, env, s)
    else if hid == H_LOOP then StepLoop(s)
    else if OracleBits(hid).Some? then
      var v := OracleAnswer(hid, OracleBits(hid).value, env.oracle(hid, idx));
      s.(pc := s.pc + 1, regs := Clobbered(s.regs, Data(v)), counters := s.counters.Called(hid))
    else if EventArgs(hid).Some? then
      var payload := Payload(s.mem, env, s.regs, EventArgs(hid).value);
      if !payload.Fine? then Failed(payload)
      else
        s.(pc := s.pc + 1, regs := Clobbered(s.regs, Data(ErrnoAnswer(env, hid, idx))),
           counters := s.counters.Called(hid), events := s.events + [Event(hid, payload.value)])
    else Wedged
  }

  function StepExit(s: CState): (s': CState)
    requires s.Running?
  {
    if s.stack == [] then
      if s.regs[0].Ptr? then Wedged else Halted(s.regs[0], s.mem, s.events)
    else
      var top, rest := s.stack[|s.stack| - 1], s.stack[..|s.stack| - 1];
      match top
      case CCall(sec, pc, regs) =>
        s.(sec := sec, pc := pc, regs := Clobbered(regs, s.regs[0]), stack := rest)
      case CLoop(csec, entry, i, n, sec, pc, regs, id, arg) =>
        match s.regs[0]
        case Undef => Trapped(Residue)
        case Ptr(_, _) => Wedged
        case Data(r0) =>
          if i + 1 < n && r0 == 0 then
            s.(sec := csec, pc := entry, regs := CallbackRegs(i + 1, id, arg), stack := rest + [top.(i := i + 1)])
          else
            s.(sec := sec, pc := pc, regs := Clobbered(regs, Data((i + 1) % TWO64)), stack := rest)
  }

  function ImmediateValue(v: Immediate): (c: CVal) {
    match v
    case Scalar(x) => Data(x)
    case GlobalAddr(name, off) => Ptr(Global(name), off)
    case MapAddr(name, off) => Ptr(MapHandle(name), off)
    case FuncAddr(sec, entry) => Ptr(FuncPtr(sec, entry), 0)
  }

  /** One instruction. */
  ghost function Step(prog: Program, canon: Region -> u64, env: Env, s: CState): (s': CState) {
    if !s.Running? then s
    else
      var fetched := Fetch(prog, s.sec, s.pc);
      if fetched.None? then Wedged
      else
        match fetched.value
        case LdImm64(dst, v) => s.(pc := s.pc + 2, regs := s.regs[dst := ImmediateValue(v)])
        case Alu(code, is64, dst, src, off) =>
          var operand := if code == 8 then Data(0) else OperandValue(s.regs, src, is64);
          var v := MachineAlu(code, is64, off, s.regs[dst], operand);
          if v.Fine? then s.(pc := s.pc + 1, regs := s.regs[dst := v.value]) else Failed(v)
        case Ldx(size, signed, dst, base, off) =>
          var v := MachineLoad(s.mem, env, Displace(s.regs[base], off), size);
          if !v.Fine? then Failed(v)
          else if !signed then s.(pc := s.pc + 1, regs := s.regs[dst := v.value])
          else if v.value.Data? && size < 8 then
            s.(pc := s.pc + 1, regs := s.regs[dst := Data(SignExtend(8 * size, v.value.v))])
          else if v.value.Data? then s.(pc := s.pc + 1, regs := s.regs[dst := v.value])
          else Wedged
        case Stx(size, base, off, src) =>
          var m := MachineStore(canon, s.mem, Displace(s.regs[base], off), size, OperandValue(s.regs, src, true));
          if m.Fine? then s.(pc := s.pc + 1, mem := m.value) else Failed(m)
        case Endian(is64, toBig, dst, width) =>
          var v := MachineEndian(is64, toBig, width, s.regs[dst]);
          if v.Fine? then s.(pc := s.pc + 1, regs := s.regs[dst := v.value]) else Failed(v)
        case Atomic(_, _, _, _, _) =>
          var r := MachineAtomic(canon, s.mem, env, s.regs, fetched.value);
          if r.Fine? then s.(pc := s.pc + 1, regs := r.value.0, mem := r.value.1) else Failed(r)
        case Ja(off) => s.(pc := s.pc + 1 + off)
        case Jump(code, is32, dst, src, off) =>
          var b := MachineCond(code, is32, s.regs[dst], OperandValue(s.regs, src, !is32));
          if b.Fine? then s.(pc := s.pc + 1 + if b.value then off else 0) else Failed(b)
        case CallLocal(sec, entry) =>
          var frame := s.counters.frame + 1;
          s.(sec := sec, pc := entry, regs := CalleeRegs(s.regs, frame), counters := s.counters.(frame := frame),
             stack := s.stack + [CCall(s.sec, s.pc + 1, s.regs)])
        case CallHelper(hid) => StepHelper(prog, env, s, hid)
        case Exit => StepExit(s)
  }

  ghost function Steps(prog: Program, canon: Region -> u64, env: Env, s: CState, n: nat): (s': CState) {
    if n == 0 then s else Step(prog, canon, env, Steps(prog, canon, env, s, n - 1))
  }

  /** Entry: r1 is the context, r10 the end of the frame, nothing else is defined. */
  function Start(sec: Name, entry: int): (s: CState) {
    Running(sec, entry,
            [Undef, Ptr(Ctx, 0), Undef, Undef, Undef, Undef, Undef, Undef, Undef, Undef, Ptr(Stack(0), STACK_SIZE)],
            map[], Counters(map[], 0, 0), [], [])
  }

  // ----- the helper tables in numbers -----

  function Answered(s: CState, hid: nat, v: u64): (s': CState)
    requires s.Running?
  {
    s.(pc := s.pc + 1, regs := Clobbered(s.regs, Data(v)), counters := s.counters.Called(hid))
  }

  /** Helpers without arguments answer with the oracle's word, cut to 32 bits or masked, and show nothing. */
  lemma OracleHelpers(prog: Program, env: Env, s: CState, hid: nat)
    requires s.Running?
    ensures var raw := env.oracle(hid, s.counters.Calls(hid));
            var s' := StepHelper(prog, env, s, hid);
            && (hid in {7, 8, 42} ==> s' == Answered(s, hid, raw % 0x1_0000_0000))
            && (hid in {5, 15, 35, 125, 158, 160, 173, 174, 185, 188, 208} ==> s' == Answered(s, hid, raw))
            && (hid == 14 ==> s' == Answered(s, hid, BitAnd(raw, 0x7FFF_FFFF_7FFF_FFFF)))
  {
    hide Clobbered, BitAnd;
  }

  /** Each call of a helper asks the oracle a new question. */
  lemma CallsCounted(c: Counters, hid: nat, other: nat)
    ensures c.Called(hid).Calls(other) == c.Calls(other) + (if other == hid then 1 else 0)
    ensures c.Called(hid).frame == c.frame && c.Called(hid).cbframe == c.cbframe
  {
  }

  function Both(a: Access<seq<u8>>, b: Access<seq<u8>>): (bs: Access<seq<u8>>) {
    var first :- a;
    var rest :- b;
    Fine(first + rest)
  }

  /** The eight bytes of a register. */
  function WordOf(s: CState, r: nat): (bs: Access<seq<u8>>)
    requires s.Running? && r <= 5
  {
    match s.regs[r]
    case Undef => Fault(Residue)
    case Ptr(_, _) => Stuck
    case Data(x) => Fine(LeBytes(x, 8))
  }

  /** A 32-bit length, then that many bytes behind a pointer. */
  ghost function BlockOf(s: CState, env: Env, r: nat, len: nat): (bs: Access<seq<u8>>)
    requires s.Running? && r <= 5 && len <= 5
  {
    match s.regs[len]
    case Undef => Fault(Residue)
    case Ptr(_, _) => Stuck
    case Data(x) =>
      var n := x % 0x1_0000_0000;
      Both(Fine(LeBytes(n, 4)), MachineBytes(s.mem, env, s.regs[r], 0, n))
  }

  ghost function Emitted(s: CState, env: Env, hid: nat, payload: Access<seq<u8>>): (s': CState)
    requires s.Running?
  {
    if !payload.Fine? then Failed(payload)
    else
      var answer := SignExtend(32, env.oracle(hid, s.counters.Calls(hid)) % 0x1_0000_0000);
      Answered(s, hid, answer).(events := s.events + [Event(hid, payload.value)])
  }

  /** Which registers and memory each helper with side effects shows, in order. */
  lemma EventHelpers(prog: Program, env: Env, s: CState, hid: nat)
    requires s.Running?
    ensures var s' := StepHelper(prog, env, s, hid);
            && (hid in {23, 155} ==> s' == Emitted(s, env, hid, Both(WordOf(s, 1), WordOf(s, 2))))
            && (hid in {32, 39} ==> s' == Emitted(s, env, hid, WordOf(s, 2)))
            && (hid in {13, 31, 38, 43} ==> s' == Emitted(s, env, hid, Both(WordOf(s, 2), WordOf(s, 3))))
            && (hid == 50 ==> s' == Emitted(s, env, hid, Both(WordOf(s, 2), Both(WordOf(s, 3), WordOf(s, 4)))))
            && (hid in {30, 64} ==> s' == Emitted(s, env, hid, BlockOf(s, env, 2, 3)))
            && (hid == 21 ==> s' == Emitted(s, env, hid, Both(BlockOf(s, env, 2, 3), WordOf(s, 4))))
            && (hid == 73 ==> s' == Emitted(s, env, hid, Both(WordOf(s, 2), BlockOf(s, env, 3, 4))))
            && (hid == 49 ==>
                  s' == Emitted(s, env, hid, Both(WordOf(s, 2), Both(WordOf(s, 3), BlockOf(s, env, 4, 5)))))
  {
    hide MachineBytes, LeBytes, Clobbered, SignExtend;
    var specs := EventArgs(hid);
    if specs.Some? {
      ShownArgs(s, env, specs.value);
    }
  }

  ghost function Shown(s: CState, env: Env, spec: ArgSpec): (bs: Access<seq<u8>>)
    requires s.Running? && spec.r <= 5 && (spec.MemArg? ==> spec.len <= 5)
  {
    if spec.ValArg? then WordOf(s, spec.r) else BlockOf(s, env, spec.r, spec.len)
  }

  lemma ShownArgs(s: CState, env: Env, specs: seq<ArgSpec>)
    requires s.Running? && (forall a :: a in specs ==> a.r <= 5 && (a.MemArg? ==> a.len <= 5)) && 1 <= |specs| <= 3
    ensures Payload(s.mem, env, s.regs, specs) ==
            match |specs|
            case 1 => Shown(s, env, specs[0])
            case 2 => Both(Shown(s, env, specs[0]), Shown(s, env, specs[1]))
            case _ => Both(Shown(s, env, specs[0]), Both(Shown(s, env, specs[1]), Shown(s, env, specs[2])))
  {
    hide MachineBytes, LeBytes;
    PayloadStep(s, env, specs);
    PayloadStep(s, env, specs[1..]);
    BothNothing(Shown(s, env, specs[|specs| - 1]));
    if |specs| > 1 { PayloadStep(s, env, specs[2..]); }
    if |specs| > 2 { PayloadStep(s, env, specs[3..]); }
    assert |specs| > 1 ==> specs[1..][1..] == specs[2..];
    assert |specs| > 2 ==> specs[2..][1..] == specs[3..];
    hide Payload, Both, Shown;
  }

  lemma BothNothing(a: Access<seq<u8>>)
    ensures Both(a, Fine([])) == a
  {
    if a.Fine? { assert a.value + [] == a.value; }
  }

  lemma PayloadStep(s: CState, env: Env, specs: seq<ArgSpec>)
    requires s.Running? && forall a :: a in specs ==> a.r <= 5 && (a.MemArg? ==> a.len <= 5)
    ensures Payload(s.mem, env, s.regs, specs) ==
            if specs == [] then Fine([])
            else Both(Shown(s, env, specs[0]), Payload(s.mem, env, s.regs, specs[1..]))
  {
    hide MachineBytes, LeBytes;
  }

  /** Any other helper wedges the machine. */
  lemma OtherHelpers(prog: Program, env: Env, s: CState, hid: nat)
    requires s.Running?
    requires hid !in {1, 5, 7, 8, 13, 14, 15, 21, 23, 30, 31, 32, 35, 38, 39, 42, 43, 49, 50, 64, 73, 125, 155, 158,
                      160, 173, 174, 181, 185, 188, 208}
    ensures StepHelper(prog, env, s, hid) == Wedged
  {
  }
}
