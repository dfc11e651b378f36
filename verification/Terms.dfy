/** The solver's term language: bit-vector, boolean and byte-array terms, and their value in an
    environment that fixes every input, oracle answer and initial memory byte. */
module Terms {
  import opened Words

  type Name = seq<u8>

  /** Named memory blocks. MapHandle and FuncPtr are opaque: they have no bytes. */
  datatype Region =
    | Ctx
    | Kmem
    | Global(name: Name)
    | Stack(frame: nat)
    | CbStack(frame: nat)
    | MapVal(hid: nat, name: Name, idx: nat)
    | MapHandle(name: Name)
    | FuncPtr(sec: Name, entry: nat)
  {
    predicate IsStack() { Stack? || CbStack? }

    predicate HasBytes() { !MapHandle? && !FuncPtr? }

    /** Regions that may hold a whole spilled pointer. */
    predicate TakesPointers() { Kmem? || IsStack() || Global? || MapVal? }

    predicate Observable() { Ctx? || Kmem? || Global? || MapVal? }

    /** All frames start from the same residue. */
    function Initial(): (r: Region) {
      if IsStack() then Stack(0) else this
    }
  }

  /** Register residue nobody has defined. */
  datatype Symbol =
    | Uninit(reg: nat)
    | Clobber(n: nat)
    | CbClobber(frame: nat, iteration: nat, reg: nat)

  datatype BinOp = OpAdd | OpSub | OpMul | OpUDiv | OpSDiv | OpURem | OpSRem
                 | OpAnd | OpOr | OpXor | OpShl | OpLShr | OpAShr

  datatype CmpOp = CmpEq | CmpNe | CmpUgt | CmpUge | CmpUlt | CmpUle
                 | CmpSgt | CmpSge | CmpSlt | CmpSle

  datatype Term =
    | Const(v: u64)
    | Sym(s: Symbol)
    | Oracle(hid: nat, idx: nat, bits: nat)
    | Lo32(t: Term)
    | Byte(k: nat, t: Term)
    | Cons8(low: Term, rest: Term)
    | SExt(bits: nat, t: Term)
    | Bin(op: BinOp, w: Width, a: Term, b: Term)
    | If(c: Cond, yes: Term, no: Term)
    | Select(arr: Array, at: Term)

  datatype Cond =
    | BoolVal(b: bool)
    | Compare(cmp: CmpOp, cw: Width, l: Term, r: Term)
    | Not(c: Cond)
    | Both(c0: Cond, c1: Cond)
    | Either(c0: Cond, c1: Cond)
    | NullAnswer(hid: nat, idx: nat)

  datatype Array =
    | Base(region: Region)
    | Store(arr: Array, at: Term, val: Term)
    | ArrIf(c: Cond, yes: Array, no: Array)

  /** Everything outside the program: register residue, helper answers, initial memory. */
  datatype Env = Env(
    sym: Symbol -> u64,
    oracle: (nat, nat) -> u64,
    isNull: (nat, nat) -> bool,
    init: (Region, u64) -> u8)

  /** Sign extension of the low 8, 16 or 32 bits to 64. */
  function SignExtend(bits: nat, v: u64): (r: u64) {
    var m := if bits == 8 then 0x100 else if bits == 16 then 0x1_0000 else TWO32;
    if v % m < m / 2 then v % m else v % m + TWO64 - m
  }

  /** Sign extension and the signed reading of a word, in numbers. */
  lemma SignedMeans(v: u64)
    ensures SignExtend(8, v) == if v % 0x100 < 0x80 then v % 0x100 else v % 0x100 + 0xFFFF_FFFF_FFFF_FF00
    ensures SignExtend(16, v) == if v % 0x1_0000 < 0x8000 then v % 0x1_0000 else v % 0x1_0000 + 0xFFFF_FFFF_FFFF_0000
    ensures var low := v % 0x1_0000_0000;
            && SignExtend(32, v) == (if low < 0x8000_0000 then low else low + 0xFFFF_FFFF_0000_0000)
            && ToSigned(W32.Modulus(), low) == (if low < 0x8000_0000 then low else low - 0x1_0000_0000)
    ensures ToSigned(W64.Modulus(), v)
              == if v < 0x8000_0000_0000_0000 then v else v - 0x1_0000_0000_0000_0000
  {
  }

  /** The operation on reduced operands, before the result is cut to the word. Division by zero
      gives what SMT-LIB fixes for it. */
  function RawBin(op: BinOp, w: Width, a: nat, b: nat): (r: int)
    requires a < w.Modulus() && b < w.Modulus()
  {
    var m := w.Modulus();
    match op
    case OpAdd => a + b
    case OpSub => a - b
    case OpMul => a * b
    case OpUDiv => if b == 0 then m - 1 else a / b
    case OpURem => if b == 0 then a else a % b
    case OpSDiv =>
      if b == 0 then (if ToSigned(m, a) < 0 then 1 else m - 1)
      else TruncDiv(ToSigned(m, a), ToSigned(m, b))
    case OpSRem => if b == 0 then a else TruncRem(ToSigned(m, a), ToSigned(m, b))
    case OpAnd => BitAnd(a, b)
    case OpOr => BitOr(a, b)
    case OpXor => BitXor(a, b)
    case OpShl => if b >= w.Bits() then 0 else a * Pow2(b)
    case OpLShr => a / Pow2(b)
    case OpAShr => ToSigned(m, a) / Pow2(b)
  }

  function EvalBin(op: BinOp, w: Width, x: u64, y: u64): (r: u64) {
    var m := w.Modulus();
    RawBin(op, w, x % m, y % m) % m
  }

  predicate EvalCmp(cmp: CmpOp, w: Width, x: u64, y: u64) {
    var m := w.Modulus();
    var a, b := x % m, y % m;
    var sa, sb := ToSigned(m, a), ToSigned(m, b);
    match cmp
    case CmpEq => a == b
    case CmpNe => a != b
    case CmpUgt => a > b
    case CmpUge => a >= b
    case CmpUlt => a < b
    case CmpUle => a <= b
    case CmpSgt => sa > sb
    case CmpSge => sa >= sb
    case CmpSlt => sa < sb
    case CmpSle => sa <= sb
  }

  ghost function Eval(t: Term, env: Env): (v: u64)
    decreases t
  {
    match t
    case Const(c) => c
    case Sym(s) => env.sym(s)
    case Oracle(hid, idx, bits) =>
      if bits == 32 then env.oracle(hid, idx) % TWO32 else env.oracle(hid, idx)
    case Lo32(t) => Eval(t, env) % TWO32
    case Byte(k, t) => ByteOf(Eval(t, env), k)
    case Cons8(low, rest) => (Eval(low, env) + 256 * Eval(rest, env)) % TWO64
    case SExt(bits, t) => SignExtend(bits, Eval(t, env))
    case Bin(op, w, a, b) => EvalBin(op, w, Eval(a, env), Eval(b, env))
    case If(c, yes, no) => if Holds(c, env) then Eval(yes, env) else Eval(no, env)
    case Select(arr, at) => At(arr, Eval(at, env), env)
  }

  ghost predicate Holds(c: Cond, env: Env)
    decreases c
  {
    match c
    case BoolVal(b) => b
    case Compare(cmp, w, l, r) => EvalCmp(cmp, w, Eval(l, env), Eval(r, env))
    case Not(c) => !Holds(c, env)
    case Both(c0, c1) => Holds(c0, env) && Holds(c1, env)
    case Either(c0, c1) => Holds(c0, env) || Holds(c1, env)
    case NullAnswer(hid, idx) => env.isNull(hid, idx)
  }

  /** The byte an array term holds at address a. */
  ghost function At(arr: Array, a: u64, env: Env): (b: u8)
    decreases arr
  {
    match arr
    case Base(r) => env.init(r, a)
    case Store(prev, at, val) => if Eval(at, env) == a then Eval(val, env) % 256 else At(prev, a, env)
    case ArrIf(c, yes, no) => if Holds(c, env) then At(yes, a, env) else At(no, a, env)
  }

  // One level of meaning at a time.

  lemma BinTerm(op: BinOp, w: Width, a: Term, b: Term, env: Env)
    ensures Eval(Bin(op, w, a, b), env) == EvalBin(op, w, Eval(a, env), Eval(b, env))
  {
    hide EvalBin;
  }

  lemma IfTerm(c: Cond, yes: Term, no: Term, env: Env)
    ensures Eval(If(c, yes, no), env) == if Holds(c, env) then Eval(yes, env) else Eval(no, env)
  {
    hide EvalBin;
  }

  lemma ConstValue(v: u64, env: Env)
    ensures Eval(Const(v), env) == v
  {
  }

  lemma CompareCond(cmp: CmpOp, w: Width, l: Term, r: Term, env: Env)
    ensures Holds(Compare(cmp, w, l, r), env) == EvalCmp(cmp, w, Eval(l, env), Eval(r, env))
  {
    hide EvalCmp, EvalBin;
  }

  lemma ByteTerm(k: nat, t: Term, env: Env)
    ensures Eval(Byte(k, t), env) == ByteOf(Eval(t, env), k)
  {
    hide EvalBin, ByteOf;
  }

  lemma LoTerm(t: Term, env: Env)
    ensures Eval(Lo32(t), env) == Eval(t, env) % TWO32
  {
    hide EvalBin;
  }

  lemma ExtTerm(bits: nat, t: Term, env: Env)
    ensures Eval(SExt(bits, t), env) == SignExtend(bits, Eval(t, env))
  {
    hide EvalBin, SignExtend;
  }

  lemma ConsTerm(low: Term, rest: Term, env: Env)
    ensures Eval(Cons8(low, rest), env) == (Eval(low, env) + 256 * Eval(rest, env)) % TWO64
  {
    hide EvalBin;
  }

  lemma SelectTerm(arr: Array, at: Term, env: Env)
    ensures Eval(Select(arr, at), env) == At(arr, Eval(at, env), env)
  {
    hide EvalBin;
  }

  lemma StoreArray(arr: Array, at: Term, val: Term, env: Env, x: u64)
    ensures At(Store(arr, at, val), x, env) == if Eval(at, env) == x then Eval(val, env) % 256 else At(arr, x, env)
  {
    hide EvalBin;
  }

  lemma BothCond(c0: Cond, c1: Cond, env: Env)
    ensures Holds(Both(c0, c1), env) == (Holds(c0, env) && Holds(c1, env))
    ensures Holds(Either(c0, c1), env) == (Holds(c0, env) || Holds(c1, env))
  {
    hide EvalCmp, EvalBin;
  }

  /** Comparing 64-bit words. */
  lemma Compare64(x: u64, y: u64)
    ensures EvalCmp(CmpEq, W64, x, y) == (x == y) && EvalCmp(CmpNe, W64, x, y) == (x != y)
    ensures EvalCmp(CmpUgt, W64, x, y) == (x > y) && EvalCmp(CmpUle, W64, x, y) == (x <= y)
  {
    hide ToSigned;
  }

  /** A path condition is a list of conjuncts. */
  ghost predicate Sat(conds: seq<Cond>, env: Env) {
    forall i :: 0 <= i < |conds| ==> Holds(conds[i], env)
  }

  lemma SatSnoc(conds: seq<Cond>, c: Cond, env: Env)
    ensures Sat(conds + [c], env) <==> Sat(conds, env) && Holds(c, env)
  {
    var all := conds + [c];
    assert forall i :: 0 <= i < |conds| ==> all[i] == conds[i];
    assert all[|conds|] == c;
  }

  /** The solver as the executor uses it: a satisfiability test whose "no" can be trusted,
      simplifiers that keep the meaning of what they rewrite, and a test for numerals. */
  datatype Solver = Solver(
    feasible: seq<Cond> -> bool,
    simplify: Term -> Term,
    simplifyCond: Cond -> Cond,
    literal: Term -> Option<u64>)
  {
    ghost predicate Sound() {
      && (forall cs, env :: Sat(cs, env) ==> feasible(cs))
      && (forall t, env :: Eval(simplify(t), env) == Eval(t, env))
      && (forall c, env :: Holds(simplifyCond(c), env) == Holds(c, env))
      && (forall t, env :: literal(t).Some? ==> Eval(t, env) == literal(t).value)
    }
  }

  lemma SimplifiedCond(solver: Solver, c: Cond, env: Env)
    requires solver.Sound()
    ensures Holds(solver.simplifyCond(c), env) == Holds(c, env)
  {
    hide Eval, Holds, Sat;
  }
}
