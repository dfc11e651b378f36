/** Byte swaps and atomic operations: the terms the executor builds, against what the machine computes. */
module Atomics {
  import opened Words
  import opened Terms
  import opened Memory
  import opened Machine
  import opened SymbolicStep
  import opened Arithmetic

  // ----- byte strings -----

  lemma {:induction false} ByteOfValue(bs: seq<u8>, k: nat)
    requires k < |bs|
    ensures ByteOf(LeValue(bs), k) == bs[k]
  {
    LeStep(bs);
    hide LeValue;
    var rest := LeValue(bs[1..]);
    assert (bs[0] + 256 * rest) % 256 == bs[0] && (bs[0] + 256 * rest) / 256 == rest;
    if k > 0 { ByteOfValue(bs[1..], k - 1); }
  }

  lemma ByteMod(v: nat, m: nat)
    requires m > 0
    ensures v % (256 * m) == v % 256 + 256 * (v / 256 % m)
  {
    var q, r := v / 256 / m, v / 256 % m;
    assert v / 256 == q * m + r;
    assert v == q * (256 * m) + (256 * r + v % 256) by { assert 256 * (q * m) == q * (256 * m); }
    ModUnique(v, 256 * m, q, 256 * r + v % 256);
  }

  /** Reading the n low bytes of a word back truncates it. */
  lemma {:induction false} LeTruncates(v: nat, n: nat)
    ensures LeValue(LeBytes(v, n)) == v % Pow256(n)
  {
    if n > 0 {
      var bs := LeBytes(v, n);
      assert bs[1..] == LeBytes(v / 256, n - 1);
      LeStep(bs);
      LeTruncates(v / 256, n - 1);
      hide LeValue, LeBytes;
      ByteMod(v, Pow256(n - 1));
    }
  }

  /** Swapping twice truncates. */
  lemma SwapTwice(v: u64, n: nat)
    requires n <= 8
    ensures Swapped(Swapped(v, n), n) == Truncated(v, n)
  {
    hide LeValue, ByteOf, SwapBytes, LeBytes, Pow256;
    var once := SwapBytes(v, n);
    var twice := SwapBytes(LeValue(once), n);
    forall k | 0 <= k < n
      ensures twice[k] == LeBytes(v, n)[k]
    {
      ByteOfValue(once, n - 1 - k);
    }
    assert twice == LeBytes(v, n);
    LeTruncates(v, n);
  }

  // ----- byte swaps -----

  lemma {:induction false} SwapTermValue(t: Term, n: nat, env: Env)
    requires 0 < n <= 8
    ensures Eval(SwapTerm(t, n), env) == LeValue(SwapBytes(Eval(t, env), n))
  {
    hide Eval, ByteOf, LeValue, Pow256;
    var bs := SwapBytes(Eval(t, env), n);
    ByteTerm(n - 1, t, env);
    LeStep(bs);
    Pow256Bound(n);
    assert bs[1..] == SwapBytes(Eval(t, env), n - 1);
    if n == 1 {
      NoBytes(bs[1..]);
    } else {
      SwapTermValue(t, n - 1, env);
      Cons8Value(Byte(n - 1, t), SwapTerm(t, n - 1), env);
    }
  }

  lemma {:induction false} LowTermValue(t: Term, k: nat, n: nat, env: Env)
    requires k < n <= 8
    ensures Eval(LowTerm(t, k, n), env) == LeValue(LeBytes(Eval(t, env), n)[k..])
    decreases n - k
  {
    hide Eval, ByteOf, LeValue, Pow256, LeBytes;
    var bs := LeBytes(Eval(t, env), n)[k..];
    ByteTerm(k, t, env);
    LeStep(bs);
    Pow256Bound(n - k);
    assert bs[1..] == LeBytes(Eval(t, env), n)[k + 1..];
    if k + 1 == n {
      NoBytes(bs[1..]);
    } else {
      LowTermValue(t, k + 1, n, env);
      Cons8Value(Byte(k, t), LowTerm(t, k + 1, n), env);
    }
  }

  /** An accepted byte swap or truncation yields what the machine yields. */
  lemma EndianAgrees(is64: bool, toBig: bool, width: int, v: SVal, c: CVal, env: Env)
    requires ValRel(v, c, env) && SymEndian(is64, toBig, width, v).Ok?
    ensures var r := MachineEndian(is64, toBig, width, c);
            r.Fault? || r == Fine(EvalVal(SymEndian(is64, toBig, width, v).value, env))
  {
    hide Eval, LeValue, SwapBytes, SwapTerm, LowTerm, LeBytes, Pow256;
    var n := width / 8;
    SwapTermValue(v.t, n, env);
    LowTermValue(v.t, 0, n, env);
    LeTruncates(Eval(v.t, env), n);
    assert LeBytes(Eval(v.t, env), n)[0..] == LeBytes(Eval(v.t, env), n);
  }

  // ----- the low half of a word operation -----

  /** The three operations on single bits. */
  function OrBit(a: nat, b: nat): (r: nat) { if a + b > 0 then 1 else 0 }
  function AndBit(a: nat, b: nat): (r: nat) { if a == 1 && b == 1 then 1 else 0 }
  function XorBit(a: nat, b: nat): (r: nat) { if a != b then 1 else 0 }

  lemma BitSteps(a: nat, x: nat, b: nat, y: nat)
    requires a < 2 && b < 2
    ensures BitOr(a + 2 * x, b + 2 * y) == OrBit(a, b) + 2 * BitOr(x, y)
    ensures BitAnd(a + 2 * x, b + 2 * y) == AndBit(a, b) + 2 * BitAnd(x, y)
    ensures BitXor(a + 2 * x, b + 2 * y) == XorBit(a, b) + 2 * BitXor(x, y)
  {
    assert (a + 2 * x) % 2 == a && (a + 2 * x) / 2 == x && (b + 2 * y) % 2 == b && (b + 2 * y) / 2 == y;
  }

  /** Equal modulo m. */
  predicate Alike(x: nat, y: nat, m: nat)
    requires m > 0
  {
    x % m == y % m
  }

  lemma DoubledMod(b: nat, r: nat, m: nat)
    requires b < 2 && m > 0
    ensures (b + 2 * r) % (2 * m) == b + 2 * (r % m)
  {
    var q, s := r / m, r % m;
    assert r == q * m + s;
    assert 2 * (q * m) == q * (2 * m);
    ModUnique(b + 2 * r, 2 * m, q, b + 2 * s);
  }

  lemma AlikeDoubled(b: nat, r: nat, r': nat, m: nat)
    requires b < 2 && m > 0 && Alike(r, r', m)
    ensures Alike(b + 2 * r, b + 2 * r', 2 * m)
  {
    DoubledMod(b, r, m);
    DoubledMod(b, r', m);
  }

  /** The low k bits of a bitwise operation are the operation on the low k bits. */
  lemma {:induction false} LowBits(x: nat, y: nat, k: nat)
    ensures var m := Pow2(k);
            && Alike(BitOr(x, y), BitOr(x % m, y % m), m)
            && Alike(BitAnd(x, y), BitAnd(x % m, y % m), m)
            && Alike(BitXor(x, y), BitXor(x % m, y % m), m)
    decreases k
  {
    hide BitOr, BitAnd, BitXor, Pow2;
    Pow2Step(k);
    if k > 0 {
      hide Alike, OrBit, AndBit, XorBit;
      var m, a, b, x', y' := Pow2(k - 1), x % 2, y % 2, x / 2, y / 2;
      LowBits(x', y', k - 1);
      HalfMod(x, m);
      HalfMod(y, m);
      LowBitsStep(a, x', x' % m, b, y', y' % m, m);
      assert x == a + 2 * x' && y == b + 2 * y';
    }
  }

  /** One bit more. */
  lemma LowBitsStep(a: nat, x: nat, x': nat, b: nat, y: nat, y': nat, m: nat)
    requires m > 0 && a < 2 && b < 2
    requires Alike(BitOr(x, y), BitOr(x', y'), m) && Alike(BitAnd(x, y), BitAnd(x', y'), m)
             && Alike(BitXor(x, y), BitXor(x', y'), m)
    ensures Alike(BitOr(a + 2 * x, b + 2 * y), BitOr(a + 2 * x', b + 2 * y'), 2 * m)
    ensures Alike(BitAnd(a + 2 * x, b + 2 * y), BitAnd(a + 2 * x', b + 2 * y'), 2 * m)
    ensures Alike(BitXor(a + 2 * x, b + 2 * y), BitXor(a + 2 * x', b + 2 * y'), 2 * m)
  {
    hide BitOr, BitAnd, BitXor, Alike;
    BitSteps(a, x, b, y);
    BitSteps(a, x', b, y');
    AlikeDoubled(OrBit(a, b), BitOr(x, y), BitOr(x', y'), m);
    AlikeDoubled(AndBit(a, b), BitAnd(x, y), BitAnd(x', y'), m);
    AlikeDoubled(XorBit(a, b), BitXor(x, y), BitXor(x', y'), m);
  }

  lemma ModTwice(x: int)
    ensures x % TWO64 % TWO32 == x % TWO32
  {
    var q, r := x / TWO64, x % TWO64;
    assert x == TWO64 * q + r && TWO64 == TWO32 * TWO32;
    ModUnique(x, TWO32, TWO32 * q + r / TWO32, r % TWO32);
  }

  lemma SumLow(x: nat, y: nat)
    ensures (x % TWO32 + y % TWO32) % TWO32 == (x + y) % TWO32
  {
    var q := x / TWO32 + y / TWO32;
    var s := x % TWO32 + y % TWO32;
    assert x + y == TWO32 * q + s;
    ModUnique(x + y, TWO32, q + s / TWO32, s % TWO32);
  }

  lemma Bits32()
    ensures Pow2(32) == TWO32
  {
    hide Pow2;
    Pow2Step(0);
    Pow2Step(1);
    Pow2Sum(1, 1);
    Pow2Sum(2, 2);
    Pow2Sum(4, 4);
    Pow2Sum(8, 8);
    Pow2Sum(16, 16);
  }

  lemma CutAlike(v: nat, w: nat)
    requires Alike(v, w, TWO32)
    ensures v % TWO64 % TWO32 == w % TWO32
  {
    ModTwice(v);
  }

  /** The four operations, on words of either width. */
  lemma ArithIs(w: Width, x: u64, y: u64)
    ensures var m := w.Modulus();
            && Arith(0, w, 0, x, y) == Some((x % m + y % m) % m)
            && Arith(4, w, 0, x, y) == Some(BitOr(x % m, y % m) % m)
            && Arith(5, w, 0, x, y) == Some(BitAnd(x % m, y % m) % m)
            && Arith(10, w, 0, x, y) == Some(BitXor(x % m, y % m) % m)
  {
    hide BitOr, BitAnd, BitXor, Pow2, ToSigned, TruncDiv, TruncRem;
  }

  /** An operation on whole words, cut to 32 bits, is the operation on 32-bit words. */
  lemma ArithLow(code: nat, x: u64, y: u64)
    requires code == 0 || code == 4 || code == 5 || code == 10
    ensures Arith(code, W64, 0, x, y).Some?
    ensures Arith(code, W32, 0, x, y) == Some(Arith(code, W64, 0, x, y).value % TWO32)
  {
    hide BitOr, BitAnd, BitXor, Pow2, Arith, Alike;
    ArithIs(W64, x, y);
    ArithIs(W32, x, y);
    ModOfSmall(x, TWO64);
    ModOfSmall(y, TWO64);
    Bits32();
    LowBits(x, y, 32);
    if code == 0 {
      SumLow(x, y);
      ModTwice(x + y);
    } else {
      CutAlike(BitOr(x, y), BitOr(x % TWO32, y % TWO32));
      CutAlike(BitAnd(x, y), BitAnd(x % TWO32, y % TWO32));
      CutAlike(BitXor(x, y), BitXor(x % TWO32, y % TWO32));
    }
  }

  // ----- storing part of a word -----

  lemma {:induction false} ByteOfLow(v: nat, k: nat, n: nat)
    requires k < n
    ensures ByteOf(v % Pow256(n), k) == ByteOf(v, k)
  {
    var m := Pow256(n - 1);
    ByteMod(v, m);
    var low := v / 256 % m;
    assert (v % 256 + 256 * low) % 256 == v % 256 && (v % 256 + 256 * low) / 256 == low;
    if k > 0 { ByteOfLow(v / 256, k - 1, n - 1); }
  }

  /** A store of four bytes sees the low half of the value only. */
  lemma StoreLow(canon: Region -> u64, m: CMem, p: CVal, v: u64)
    ensures MachineStore(canon, m, p, 4, Data(v)) == MachineStore(canon, m, p, 4, Data(v % TWO32))
  {
    hide ByteOf, Overwrite, Pow256;
    Pow256Values();
    forall k | 0 <= k < 4
      ensures ByteOf(v % TWO32, k) == ByteOf(v, k)
    {
      ByteOfLow(v, k, 4);
    }
    assert DataCells(v, 4) == DataCells(v % TWO32, 4);
  }

  // ----- read-modify-write -----

  /** The new value as a term, against the machine's value of the access's width. */
  lemma AtomicTermAgrees(aop: int, size: nat, old_: Term, src: Term, env: Env)
    requires (size == 4 || size == 8) && AtomicTerm(aop, old_, src).Some?
    ensures var v := AtomicNew(aop, size, Eval(old_, env), Eval(src, env));
            var t := Eval(AtomicTerm(aop, old_, src).value, env);
            v.Some? && (size == 8 ==> v.value == t) && (size == 4 ==> v.value % TWO32 == t % TWO32)
  {
    hide Eval, Arith, EvalBin;
    if aop != A_XCHG {
      var code := AtomicCode(aop).value;
      var op := if code == 0 then OpAdd else if code == 4 then OpOr else if code == 5 then OpAnd else OpXor;
      BinTerm(op, W64, old_, src, env);
      WordOp(code, op, Eval(old_, env), Eval(src, env));
      ArithLow(code, Eval(old_, env), Eval(src, env));
    }
  }

  lemma WordOp(code: nat, op: BinOp, x: u64, y: u64)
    requires (code, op) in {(0, OpAdd), (4, OpOr), (5, OpAnd), (10, OpXor)}
    ensures Arith(code, W64, 0, x, y) == Some(EvalBin(op, W64, x, y))
  {
    hide BitOr, BitAnd, BitXor, Pow2, ToSigned, TruncDiv, TruncRem;
  }

  /** Storing the term's value is storing the machine's. */
  lemma SameStore(canon: Region -> u64, m: CMem, p: CVal, size: nat, v: u64, t: u64)
    requires (size == 8 && v == t) || (size == 4 && v % TWO32 == t % TWO32)
    ensures MachineStore(canon, m, p, size, Data(v)) == MachineStore(canon, m, p, size, Data(t))
  {
    hide MachineStore;
    if size == 4 {
      StoreLow(canon, m, p, v);
      StoreLow(canon, m, p, t);
    }
  }

  // ----- what each immediate does -----

  /** The modulus of a four- or eight-byte access. */
  function AccessModulus(size: nat): (w: int)
    ensures w > 0
  {
    if size == 4 then 0x1_0000_0000 else 0x1_0000_0000_0000_0000
  }

  /** Registers and memory after the old value has been replaced by a new one. */
  ghost function Replaced(canon: Region -> u64, m: CMem, p: CVal, size: nat, regs: CRegs,
                          v: u64): (r: Access<(CRegs, CMem)>)
    requires 1 <= size <= 8
  {
    var m' :- MachineStore(canon, m, p, size, Data(v));
    Fine((regs, m'))
  }

  /** The immediates that compute: what is stored, and where the old value goes. */
  lemma ReadModifyMeans(canon: Region -> u64, m: CMem, env: Env, regs: CRegs, i: Insn, old_: u64, src: u64)
    requires i.Atomic? && ValidInsn(i) && (i.size == 4 || i.size == 8) && regs[i.other] == Data(src)
    requires MachineLoad(m, env, Displace(regs[i.dst], i.off), i.size) == Fine(Data(old_))
    ensures var p, w, r := Displace(regs[i.dst], i.off), AccessModulus(i.size), MachineAtomic(canon, m, env, regs, i);
            var a, b, fetched := old_ % w, src % w, regs[i.other := Data(old_)];
            && (i.aop == 0x00 ==> r == Replaced(canon, m, p, i.size, regs, (a + b) % w))
            && (i.aop == 0x01 ==> r == Replaced(canon, m, p, i.size, fetched, (a + b) % w))
            && (i.aop == 0x40 ==> r == Replaced(canon, m, p, i.size, regs, BitOr(a, b) % w))
            && (i.aop == 0x41 ==> r == Replaced(canon, m, p, i.size, fetched, BitOr(a, b) % w))
            && (i.aop == 0x50 ==> r == Replaced(canon, m, p, i.size, regs, BitAnd(a, b) % w))
            && (i.aop == 0x51 ==> r == Replaced(canon, m, p, i.size, fetched, BitAnd(a, b) % w))
            && (i.aop == 0xA0 ==> r == Replaced(canon, m, p, i.size, regs, BitXor(a, b) % w))
            && (i.aop == 0xA1 ==> r == Replaced(canon, m, p, i.size, fetched, BitXor(a, b) % w))
            && (i.aop == 0xE1 ==> r == Replaced(canon, m, p, i.size, fetched, src))
  {
    hide MachineLoad, MachineStore, BitOr, BitAnd, BitXor, Arith, Displace;
    ArithIs(W64, old_, src);
    ArithIs(W32, old_, src);
  }

  /** The immediates that move: compare-and-exchange, load-acquire and store-release. */
  lemma ExchangeMeans(canon: Region -> u64, m: CMem, env: Env, regs: CRegs, i: Insn, old_: u64, src: u64, expected: u64)
    requires i.Atomic? && ValidInsn(i) && (i.size == 4 || i.size == 8)
    requires regs[i.other] == Data(src) && regs[0] == Data(expected)
    requires MachineLoad(m, env, Displace(regs[i.dst], i.off), i.size) == Fine(Data(old_))
    ensures var p, w, r := Displace(regs[i.dst], i.off), AccessModulus(i.size), MachineAtomic(canon, m, env, regs, i);
            && (i.aop == 0xF1 && old_ % w == expected % w ==>
                  r == Replaced(canon, m, p, i.size, regs[0 := Data(old_)], src))
            && (i.aop == 0xF1 && old_ % w != expected % w ==>
                  r == Replaced(canon, m, p, i.size, regs[0 := Data(old_)], old_))
            && (i.aop == 0x110 ==> r == Replaced(canon, m, p, i.size, regs, src))
  {
    hide MachineLoad, MachineStore, Displace;
  }

  lemma LoadAcquireMeans(canon: Region -> u64, m: CMem, env: Env, regs: CRegs, i: Insn, v: CVal)
    requires i.Atomic? && ValidInsn(i) && i.aop == 0x100
    requires MachineLoad(m, env, Displace(regs[i.other], i.off), i.size) == Fine(v)
    ensures MachineAtomic(canon, m, env, regs, i) == Fine((regs[i.dst := v], m))
  {
    hide MachineLoad, Displace;
  }

  /** Every other immediate has no meaning. */
  lemma OtherImmediates(canon: Region -> u64, m: CMem, env: Env, regs: CRegs, i: Insn)
    requires i.Atomic? && ValidInsn(i)
    requires i.aop !in {0x00, 0x01, 0x40, 0x41, 0x50, 0x51, 0xA0, 0xA1, 0xE1, 0xF1, 0x100, 0x110}
    ensures !MachineAtomic(canon, m, env, regs, i).Fine?
  {
    hide MachineLoad, MachineStore, Displace;
  }
}
