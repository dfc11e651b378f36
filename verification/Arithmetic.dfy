/** The terms the executor builds for arithmetic and conditions evaluate to what the machine computes. */
module Arithmetic {
  import opened Words
  import opened Terms
  import opened Memory
  import opened Machine
  import opened SymbolicStep

  // ----- arithmetic and conditions -----

  function Narrow(w: Width, t: Term): (r: Term) {
    if w.W64? then t else Lo32(t)
  }

  lemma NarrowValue(w: Width, t: Term, env: Env)
    ensures Eval(Narrow(w, t), env) % w.Modulus() == Eval(t, env) % w.Modulus()
  {
  }

  lemma NarrowExact(w: Width, t: Term, env: Env)
    ensures Eval(Narrow(w, t), env) == Eval(t, env) % w.Modulus()
  {
    LoTerm(t, env);
    hide Eval;
    ModOfSmall(Eval(t, env), TWO64);
  }

  lemma BinValue(op: BinOp, w: Width, x: Term, y: Term, env: Env)
    ensures var m := w.Modulus();
            Eval(Bin(op, w, Narrow(w, x), Narrow(w, y)), env)
            == RawBin(op, w, Eval(x, env) % m, Eval(y, env) % m) % m
  {
    hide RawBin, Narrow, Eval;
    BinTerm(op, w, Narrow(w, x), Narrow(w, y), env);
    NarrowValue(w, x, env);
    NarrowValue(w, y, env);
  }

  lemma AndWords(w: Width, u: u64, v: u64)
    requires v < w.Modulus()
    ensures EvalBin(OpAnd, w, u, v) == BitAnd(u % w.Modulus(), v)
  {
    hide BitAnd, BitOr, BitXor, Pow2, ToSigned, TruncDiv, TruncRem;
    assert v % w.Modulus() == v;
    assert BitAnd(u % w.Modulus(), v) <= v;
  }

  /** A masked shift count is the count modulo the word size. */
  lemma CountValue(w: Width, y: Term, env: Env)
    ensures Eval(Bin(OpAnd, w, Narrow(w, y), Const(w.Bits() - 1)), env) == (Eval(y, env) % w.Modulus()) % w.Bits()
  {
    hide EvalBin, BitAnd, Narrow, Eval;
    BinTerm(OpAnd, w, Narrow(w, y), Const(w.Bits() - 1), env);
    ConstValue(w.Bits() - 1, env);
    NarrowValue(w, y, env);
    var v := Eval(y, env) % w.Modulus();
    MaskIsMod(v);
    AndWords(w, Eval(Narrow(w, y), env), w.Bits() - 1);
    assert BitAnd(v, w.Bits() - 1) == v % w.Bits();
  }

  lemma ShiftValue(op: BinOp, w: Width, x: Term, y: Term, env: Env)
    requires op == OpShl || op == OpLShr || op == OpAShr
    ensures var m := w.Modulus();
            var count := Bin(OpAnd, w, Narrow(w, y), Const(w.Bits() - 1));
            Eval(Bin(op, w, Narrow(w, x), count), env)
            == RawBin(op, w, Eval(x, env) % m, (Eval(y, env) % m) % w.Bits()) % m
  {
    hide RawBin, Narrow, Eval;
    var count := Bin(OpAnd, w, Narrow(w, y), Const(w.Bits() - 1));
    BinTerm(op, w, Narrow(w, x), count, env);
    CountValue(w, y, env);
    NarrowValue(w, x, env);
    CountSmall(w, Eval(y, env) % w.Modulus());
  }

  lemma CountSmall(w: Width, v: nat)
    ensures v % w.Bits() < w.Modulus() && v % w.Bits() % w.Modulus() == v % w.Bits()
  {
  }

  /** The operation of a plain two-operand code. */
  function OpOf(code: nat): (op: Option<BinOp>) {
    match code
    case 0 => Some(OpAdd)
    case 1 => Some(OpSub)
    case 2 => Some(OpMul)
    case 4 => Some(OpOr)
    case 5 => Some(OpAnd)
    case 10 => Some(OpXor)
    case _ => None
  }

  lemma PlainArith(code: nat, w: Width, off: int, x: u64, y: u64)
    requires OpOf(code).Some?
    ensures Arith(code, w, off, x, y)
              == Some(RawBin(OpOf(code).value, w, x % w.Modulus(), y % w.Modulus()) % w.Modulus())
  {
    hide Pow2, ToSigned, BitAnd, BitOr, BitXor, TruncDiv, TruncRem;
  }

  lemma PlainTerm(code: nat, w: Width, off: int, x: Term, y: Term)
    requires OpOf(code).Some?
    ensures SymArith(code, w, off, x, y) == Some(Bin(OpOf(code).value, w, Narrow(w, x), Narrow(w, y)))
  {
  }

  function ShiftOf(code: nat): (op: BinOp) {
    if code == 6 then OpShl else if code == 7 then OpLShr else OpAShr
  }

  lemma ShiftArith(code: nat, w: Width, off: int, x: u64, y: u64)
    requires code == 6 || code == 7 || code == 12
    ensures var m := w.Modulus();
            Arith(code, w, off, x, y) == Some(RawBin(ShiftOf(code), w, x % m, (y % m) % w.Bits()) % m)
  {
    hide Pow2, ToSigned, BitAnd, BitOr, BitXor, TruncDiv, TruncRem;
  }

  lemma ShiftTerm(code: nat, w: Width, off: int, x: Term, y: Term)
    requires code == 6 || code == 7 || code == 12
    ensures SymArith(code, w, off, x, y)
              == Some(Bin(ShiftOf(code), w, Narrow(w, x), Bin(OpAnd, w, Narrow(w, y), Const(w.Bits() - 1))))
  {
  }

  lemma ArithAgrees(code: nat, w: Width, off: int, x: Term, y: Term, env: Env)
    requires SymArith(code, w, off, x, y).Some?
    ensures Arith(code, w, off, Eval(x, env), Eval(y, env)) == Some(Eval(SymArith(code, w, off, x, y).value, env))
  {
    var m := w.Modulus();
    if code == 3 || code == 9 {
      hide Arith, SymArith, Eval;
      DivRemAgrees(code, w, off, x, y, env);
    } else if code == 8 {
      hide Eval, Pow2, ToSigned, BitAnd, BitOr, BitXor, TruncDiv, TruncRem;
      NegAgrees(w, x, env);
    } else if code == 6 || code == 7 || code == 12 {
      hide Arith, SymArith, Eval, RawBin;
      ShiftArith(code, w, off, Eval(x, env), Eval(y, env));
      ShiftTerm(code, w, off, x, y);
      ShiftValue(ShiftOf(code), w, x, y, env);
    } else {
      assert OpOf(code).Some?;
      hide Arith, SymArith, Eval, RawBin;
      PlainArith(code, w, off, Eval(x, env), Eval(y, env));
      PlainTerm(code, w, off, x, y);
      BinValue(OpOf(code).value, w, x, y, env);
    }
  }

  lemma NegAgrees(w: Width, x: Term, env: Env)
    ensures (-(Eval(x, env) % w.Modulus())) % w.Modulus() == Eval(Bin(OpSub, w, Const(0), Narrow(w, x)), env)
  {
    hide EvalBin, Narrow, Eval;
    BinTerm(OpSub, w, Const(0), Narrow(w, x), env);
    ConstValue(0, env);
    NarrowValue(w, x, env);
    NegWord(w, Eval(Narrow(w, x), env));
  }

  lemma NegWord(w: Width, y: u64)
    ensures EvalBin(OpSub, w, 0, y) == (-(y % w.Modulus())) % w.Modulus()
  {
    hide RawBin;
    SubWords(w, 0, y % w.Modulus());
  }

  lemma SubWords(w: Width, a: nat, b: nat)
    requires a < w.Modulus() && b < w.Modulus()
    ensures RawBin(OpSub, w, a, b) == a - b
  {
  }

  lemma ZeroTest(w: Width, y: Term, env: Env)
    ensures Holds(Compare(CmpEq, w, Narrow(w, y), Const(0)), env) <==> Eval(y, env) % w.Modulus() == 0
  {
    hide Narrow, Eval, Holds, ToSigned;
    CompareCond(CmpEq, w, Narrow(w, y), Const(0), env);
    ConstValue(0, env);
    NarrowValue(w, y, env);
  }

  /** Operation, term for a zero divisor, and machine result for one. */
  function DivOf(code: nat, off: int): (op: BinOp) {
    if code == 3 then (if off == 1 then OpSDiv else OpUDiv) else (if off == 1 then OpSRem else OpURem)
  }

  lemma DivRemArith(code: nat, w: Width, off: int, x: u64, y: u64)
    requires code == 3 || code == 9
    ensures var m := w.Modulus();
            Arith(code, w, off, x, y) ==
            if y % m == 0 then Some(if code == 3 then 0 else x % m)
            else Some(RawBin(DivOf(code, off), w, x % m, y % m) % m)
  {
    hide Pow2, ToSigned, BitAnd, BitOr, BitXor, TruncDiv, TruncRem;
  }

  lemma DivRemTerm(code: nat, w: Width, off: int, x: Term, y: Term)
    requires code == 3 || code == 9
    ensures SymArith(code, w, off, x, y) ==
            Some(If(Compare(CmpEq, w, Narrow(w, y), Const(0)), if code == 3 then Const(0) else Narrow(w, x),
                    Bin(DivOf(code, off), w, Narrow(w, x), Narrow(w, y))))
  {
  }

  /** Division and remainder, with their fixed results for a zero divisor. */
  lemma DivRemAgrees(code: nat, w: Width, off: int, x: Term, y: Term, env: Env)
    requires code == 3 || code == 9
    ensures Arith(code, w, off, Eval(x, env), Eval(y, env)) == Some(Eval(SymArith(code, w, off, x, y).value, env))
  {
    hide Arith, SymArith, Eval, Holds, RawBin, Narrow;
    var zero := Compare(CmpEq, w, Narrow(w, y), Const(0));
    DivRemArith(code, w, off, Eval(x, env), Eval(y, env));
    DivRemTerm(code, w, off, x, y);
    IfTerm(zero, if code == 3 then Const(0) else Narrow(w, x), Bin(DivOf(code, off), w, Narrow(w, x), Narrow(w, y)),
           env);
    ZeroTest(w, y, env);
    ConstValue(0, env);
    NarrowExact(w, x, env);
    BinValue(DivOf(code, off), w, x, y, env);
  }

  /** ALU instructions, including pointer arithmetic. */
  lemma AluAgrees(code: nat, is64: bool, off: int, d: SVal, s: SVal, cd: CVal, cs: CVal, env: Env)
    requires ValRel(d, cd, env) && ValRel(s, cs, env)
    requires SymAlu(code, is64, off, d, s).Ok?
    ensures var v := MachineAlu(code, is64, off, cd, cs);
            v.Fault? || v == Fine(EvalVal(SymAlu(code, is64, off, d, s).value, env))
  {
    var w := if is64 then W64 else W32;
    if code == 11 {
      MoveAgrees(is64, off, d, s, cd, cs, env);
    } else if d.SData? && s.SData? {
      ArithAgrees(code, w, off, d.t, s.t, env);
      hide Arith, SymArith, EvalBin;
    } else {
      PointerArith(code, is64, off, d, s, cd, cs, env);
    }
  }

  lemma MoveAgrees(is64: bool, off: int, d: SVal, s: SVal, cd: CVal, cs: CVal, env: Env)
    requires ValRel(s, cs, env) && SymAlu(11, is64, off, d, s).Ok?
    ensures var v := MachineAlu(11, is64, off, cd, cs);
            v.Fault? || v == Fine(EvalVal(SymAlu(11, is64, off, d, s).value, env))
  {
    hide Arith, SymArith, Eval, MoveSigned, SignExtend;
    if s.SData? {
      var v := Eval(s.t, env);
      LoTerm(s.t, env);
      assert v % TWO64 == v;
      if off == 8 || off == 16 || off == 32 {
        ExtTerm(off, s.t, env);
        LoTerm(SExt(off, s.t), env);
        NarrowSigned(off, v);
        WideSigned(off, v);
      }
    }
  }

  lemma WideSigned(bits: nat, v: u64)
    requires bits == 8 || bits == 16 || bits == 32
    ensures MoveSigned(true, bits, v) == SignExtend(bits, v)
  {
  }

  /** Sign extension to 64 bits cut to 32 is sign extension to 32. */
  lemma NarrowSigned(bits: nat, v: u64)
    requires bits == 8 || bits == 16 || bits == 32
    ensures SignExtend(bits, v) % TWO32 == MoveSigned(false, bits, v)
  {
  }

  lemma PointerArith(code: nat, is64: bool, off: int, d: SVal, s: SVal, cd: CVal, cs: CVal, env: Env)
    requires ValRel(d, cd, env) && ValRel(s, cs, env) && code != 11 && (d.SPtr? || s.SPtr?)
    requires SymAlu(code, is64, off, d, s).Ok?
    ensures var v := MachineAlu(code, is64, off, cd, cs);
            v.Fault? || v == Fine(EvalVal(SymAlu(code, is64, off, d, s).value, env))
  {
    hide Arith, SymArith, EvalBin, RawBin;
    var x := if d.SPtr? then Eval(d.off, env) else Eval(d.t, env);
    var y := if s.SPtr? then Eval(s.off, env) else Eval(s.t, env);
    AddWords(x, y);
    AddWords(y, x);
    SubWords64(x, y);
  }

  lemma SubWords64(x: u64, y: u64)
    ensures EvalBin(OpSub, W64, x, y) == (x - y) % TWO64
  {
    hide ToSigned, TruncDiv, TruncRem, BitAnd, BitOr, BitXor, Pow2;
  }

  lemma CmpValue(cmp: CmpOp, w: Width, x: Term, y: Term, env: Env)
    ensures Holds(Compare(cmp, w, Narrow(w, x), Narrow(w, y)), env)
            <==> EvalCmp(cmp, w, Eval(x, env), Eval(y, env))
  {
    hide Narrow, Eval, Holds, ToSigned;
    CompareCond(cmp, w, Narrow(w, x), Narrow(w, y), env);
    NarrowValue(w, x, env);
    NarrowValue(w, y, env);
  }

  lemma RawAnd(w: Width, a: nat, b: nat)
    requires a < w.Modulus() && b < w.Modulus()
    ensures RawBin(OpAnd, w, a, b) % w.Modulus() == BitAnd(a, b)
  {
    hide Pow2, ToSigned, BitAnd, BitOr, BitXor, TruncDiv, TruncRem;
    assert BitAnd(a, b) <= a;
  }

  lemma NotZero(w: Width, v: u64)
    requires v < w.Modulus()
    ensures EvalCmp(CmpNe, w, v, 0) <==> v != 0
  {
    hide ToSigned;
  }

  lemma TestAgrees(w: Width, x: Term, y: Term, env: Env)
    ensures var m := w.Modulus();
            Holds(Compare(CmpNe, w, Bin(OpAnd, w, Narrow(w, x), Narrow(w, y)), Const(0)), env)
            <==> BitAnd(Eval(x, env) % m, Eval(y, env) % m) != 0
  {
    hide Eval, Holds, RawBin, EvalCmp, BitAnd, Narrow;
    var m := w.Modulus();
    var both := Bin(OpAnd, w, Narrow(w, x), Narrow(w, y));
    BinValue(OpAnd, w, x, y, env);
    RawAnd(w, Eval(x, env) % m, Eval(y, env) % m);
    CompareCond(CmpNe, w, both, Const(0), env);
    ConstValue(0, env);
    NotZero(w, Eval(both, env));
  }

  /** The comparison a jump code makes; code 4 tests bits instead. */
  function CmpOf(code: nat): (cmp: Option<CmpOp>) {
    match code
    case 1 => Some(CmpEq)
    case 2 => Some(CmpUgt)
    case 3 => Some(CmpUge)
    case 5 => Some(CmpNe)
    case 6 => Some(CmpSgt)
    case 7 => Some(CmpSge)
    case 10 => Some(CmpUlt)
    case 11 => Some(CmpUle)
    case 12 => Some(CmpSlt)
    case 13 => Some(CmpSle)
    case _ => None
  }

  lemma CondIsCmp(code: nat, w: Width, x: u64, y: u64)
    requires CmpOf(code).Some?
    ensures CondHolds(code, w, x, y) == Some(EvalCmp(CmpOf(code).value, w, x, y))
  {
    hide ToSigned, BitAnd;
  }

  lemma CondTermIs(code: nat, w: Width, x: Term, y: Term)
    requires CondTerm(code, w, x, y).Ok?
    ensures var a, b := Narrow(w, x), Narrow(w, y);
            if code == 4 then CondTerm(code, w, x, y) == Ok(Compare(CmpNe, w, Bin(OpAnd, w, a, b), Const(0)))
            else CmpOf(code).Some? && CondTerm(code, w, x, y) == Ok(Compare(CmpOf(code).value, w, a, b))
  {
  }

  lemma CondIsTest(w: Width, x: u64, y: u64)
    ensures CondHolds(4, w, x, y) == Some(BitAnd(x % w.Modulus(), y % w.Modulus()) != 0)
  {
    hide ToSigned, BitAnd;
  }

  lemma CondTermAgrees(code: nat, w: Width, x: Term, y: Term, env: Env)
    requires CondTerm(code, w, x, y).Ok?
    ensures CondHolds(code, w, Eval(x, env), Eval(y, env)) == Some(Holds(CondTerm(code, w, x, y).value, env))
  {
    hide CondHolds, CondTerm, Holds, Eval, EvalCmp, BitAnd, CmpOf, Narrow;
    CondTermIs(code, w, x, y);
    if code == 4 {
      TestAgrees(w, x, y, env);
      CondIsTest(w, Eval(x, env), Eval(y, env));
    } else {
      CmpValue(CmpOf(code).value, w, x, y, env);
      CondIsCmp(code, w, Eval(x, env), Eval(y, env));
    }
  }

  lemma CondAgrees(code: nat, is32: bool, d: SVal, s: SVal, cd: CVal, cs: CVal, env: Env)
    requires ValRel(d, cd, env) && ValRel(s, cs, env)
    requires SymCond(code, is32, d, s).Ok?
    ensures var b := MachineCond(code, is32, cd, cs);
            b.Fault? || b == Fine(Holds(SymCond(code, is32, d, s).value, env))
  {
    var w := if is32 then W32 else W64;
    hide CondHolds, EvalBin;
    if d.SPtr? && s.SPtr? && d.r == s.r {
      CondTermAgrees(code, w, d.off, s.off, env);
    } else if d.SData? && s.SData? {
      CondTermAgrees(code, w, d.t, s.t, env);
    }
  }
}
