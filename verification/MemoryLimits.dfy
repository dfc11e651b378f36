/** Where the pointer shadow stops being exact, and the copy that carries stored pointers across. */
module MemoryLimits {
  import opened Words
  import opened Terms
  import opened Memory
  import opened SymbolicStep

  // ----- stores that cut a stored pointer -----

  /** Some slot is overlapped by the range but not replaced whole. */
  ghost predicate Cuts(sh: Shadow, a: u64, size: nat) {
    exists o :: o in sh && Touches(o, a, size) && !(o == a && size == 8)
  }

  /** No byte has been lost. */
  ghost predicate Whole(c: CMem, env: Env) {
    forall r: Region, x: u64 :: !CellAt(c, env, r, x).Lost?
  }

  /** An accepted store loses exactly the cells it does not overwrite of the stack pointers it touches. */
  lemma LostIff(canon: Region -> u64, m: SMem, c: CMem, env: Env, r: Region, a: u64, cells: seq<Cell>, r': Region,
                x: u64)
    requires 1 <= |cells| && a + |cells| <= TWO64 && MemRel(canon, m, c, env)
    requires forall k :: 0 <= k < |cells| ==> !cells[k].Lost?
    ensures CellAt(Overwrite(canon, c, r, a, cells), env, r', x).Lost?
            <==> if r' == r && a <= x < a + |cells| then false
                 else CellAt(c, env, r', x).Lost? || (r' == r && r.IsStack() && Robbed(m.ShadowOf(r), a, |cells|, x))
  {
    hide Overwrite, ViewAt, Robbed;
    OverwriteAt(canon, c, env, r, a, cells, r', x);
    MemRelAt(canon, m, c, env, r);
    hide MemRel;
    assert CellRel(r, CellAt(c, env, r, x), ViewAt(m, env, r, x));
    RobbedIsCut(m, env, r, a, |cells|, x);
  }

  /** A store keeps a memory whole if and only if it cuts no stored pointer of the stack. */
  lemma StoreExactIff(canon: Region -> u64, m: SMem, c: CMem, env: Env, r: Region, a: u64, val: CVal, size: nat)
    requires 1 <= size <= 8 && a + size <= TWO64 && !val.Undef?
    requires MemRel(canon, m, c, env) && Whole(c, env)
    ensures Whole(Overwrite(canon, c, r, a, CellsOf(canon, val, size)), env)
            <==> !(r.IsStack() && Cuts(m.ShadowOf(r), a, size))
  {
    var cells := CellsOf(canon, val, size);
    MemRelAt(canon, m, c, env, r);
    forall r': Region, x: u64
      ensures CellAt(Overwrite(canon, c, r, a, cells), env, r', x).Lost?
              <==> r' == r && !(a <= x < a + size) && r.IsStack() && Robbed(m.ShadowOf(r), a, size, x)
    {
      LostIff(canon, m, c, env, r, a, cells, r', x);
    }
    hide Overwrite, CellsOf, MemRel, CellAt, Robbed, Cuts;
    CutIsRobbed(m.ShadowOf(r), a, size);
    if r.IsStack() && Cuts(m.ShadowOf(r), a, size) {
      var x: u64 :| !(a <= x < a + size) && Robbed(m.ShadowOf(r), a, size, x);
      assert CellAt(Overwrite(canon, c, r, a, cells), env, r, x).Lost?;
    }
  }

  lemma CutIsRobbed(sh: Shadow, a: u64, size: nat)
    requires 1 <= size <= 8 && a + size <= TWO64 && ShadowOk(sh)
    ensures Cuts(sh, a, size) <==> exists x: u64 :: !(a <= x < a + size) && Robbed(sh, a, size, x)
  {
    if Cuts(sh, a, size) {
      var o :| o in sh && Touches(o, a, size) && !(o == a && size == 8);
      var x: u64 := if o < a then o else a + size;
      assert Covers(sh, o, x);
      assert Robbed(sh, a, size, x);
    }
  }

  /** The plainest sound solver. */
  function PlainSolver(): (s: Solver) {
    Solver(cs => true, t => t, c => c, t => None)
  }

  /** What is left of a half-overwritten pointer on the stack reads as the bytes the frame held before
      the pointer was stored; on the machine it is lost. */
  lemma TornPointerReadsResidue(canon: Region -> u64, env: Env)
    ensures PlainSolver().Sound()
    ensures var slot := SPtr(Stack(0), Const(0));
            var m0 := SMem(map[], map[]);
            var s1 := SymStore(canon, PlainSolver(), m0, slot, 8, SPtr(Ctx, Const(0)));
            s1.Ok? &&
            var s2 := SymStore(canon, PlainSolver(), s1.value, slot, 1, SData(Const(7)));
            s2.Ok? &&
            var got := SymLoad(PlainSolver(), s2.value, SPtr(Stack(0), Const(1)), 1);
            var stored := Overwrite(canon, map[], Stack(0), 0, PointerCells(Ctx, 0));
            var cells := Overwrite(canon, stored, Stack(0), 0, DataCells(7, 1));
            && got.Ok? && got.value.SData? && Eval(got.value.t, env) == env.init(Stack(0), 1)
            && LoadAt(cells, env, Stack(0), 1, 1) == Fault(LostByte)
  {
    hide EvalBin, ByteOf, Overwrite;
    var slot := SPtr(Stack(0), Const(0));
    var m1 := SymStore(canon, PlainSolver(), SMem(map[], map[]), slot, 8, SPtr(Ctx, Const(0))).value;
    var s2 := SymStore(canon, PlainSolver(), m1, slot, 1, SData(Const(7)));
    assert m1.ShadowOf(Stack(0)) == map[0 := SPtr(Ctx, Const(0))];
    assert s2.Ok?;
    var m2 := s2.value;
    assert Touches(0, 0, 1);
    assert m2.ShadowOf(Stack(0)) == map[];
    var arr := StoreTerm(Base(Stack(0)), Const(0), Const(7), 1);
    assert m2.Arr(Stack(0)) == arr;
    var t := Select(arr, Plus(Const(1), 0));
    assert SymLoad(PlainSolver(), m2, SPtr(Stack(0), Const(1)), 1) == Ok(SData(t));
    PlusValue(Const(1), 0, env);
    StoreTermAt(Base(Stack(0)), Const(0), Const(7), 1, env, 1);
    assert Eval(t, env) == At(arr, 1, env) == env.init(Stack(0), 1);
    var stored := Overwrite(canon, map[], Stack(0), 0, PointerCells(Ctx, 0));
    OverwriteAt(canon, map[], env, Stack(0), 0, PointerCells(Ctx, 0), Stack(0), 1);
    OverwriteAt(canon, stored, env, Stack(0), 0, DataCells(7, 1), Stack(0), 1);
  }

  /** An access that runs past the last address is not checked against slots at the first ones. */
  lemma WrappedLoadMissesSlot(canon: Region -> u64, env: Env)
    ensures var m := SMem(map[], map[Stack(0) := map[0 := SPtr(Ctx, Const(0))]]);
            && ShadowOk(m.ShadowOf(Stack(0)))
            && SymLoad(PlainSolver(), m, SPtr(Stack(0), Const(TWO64 - 4)), 8).Ok?
            && SymLoad(PlainSolver(), m, SPtr(Stack(0), Const(TWO64 - 4)), 8).value.SData?
            && Covers(m.ShadowOf(Stack(0)), 0, (TWO64 - 4 + 5) % TWO64)
  {
  }

  // ----- copying -----

  ghost function SourceCells(c: CMem, env: Env, r: Region, a: nat, n: nat): (cells: seq<Cell>)
    requires a + n <= TWO64
    ensures |cells| == n
    ensures forall k :: 0 <= k < n ==> cells[k] == CellAt(c, env, r, a + k)
  {
    seq(n, k requires 0 <= k < n => CellAt(c, env, r, a + k))
  }

  /** A copy between ranges, by region and address. */
  datatype Move = Move(to: Region, d: u64, from: Region, s: u64, n: nat)

  ghost predicate InRange(mv: Move) {
    && mv.d + mv.n <= TWO64 && mv.s + mv.n <= TWO64
    && (mv.to == mv.from ==> mv.d + mv.n <= mv.s || mv.s + mv.n <= mv.d)
  }

  /** The source as the copy finds it: pointers that reach into the destination are cut. */
  ghost function Readable(canon: Region -> u64, c: CMem, mv: Move): (c': CMem) {
    CutPointers(canon, c, mv.to, mv.d, mv.n)
  }

  ghost predicate Unlost(canon: Region -> u64, c: CMem, env: Env, mv: Move) {
    forall x: u64 :: mv.s <= x < mv.s + mv.n ==> !CellAt(Readable(canon, c, mv), env, mv.from, x).Lost?
  }

  /** Both ranges lie in the address space and do not overlap, and no lost byte is read. */
  ghost predicate Copyable(canon: Region -> u64, m: SMem, c: CMem, env: Env, mv: Move) {
    MemRel(canon, m, c, env) && InRange(mv) && Unlost(canon, c, env, mv)
  }

  ghost predicate Pending(mv: Move, k: nat, r: Region, x: u64) {
    r == mv.to && mv.d + k <= x < mv.d + mv.n
  }

  /** The state the machine has after k bytes. */
  ghost function Target(canon: Region -> u64, c: CMem, env: Env, mv: Move, k: nat): (c': CMem)
    requires k <= mv.n && InRange(mv)
  {
    Overwrite(canon, c, mv.to, mv.d, SourceCells(Readable(canon, c, mv), env, mv.from, mv.s, k))
  }

  lemma TargetAt(canon: Region -> u64, c: CMem, env: Env, mv: Move, k: nat, r: Region, x: u64)
    requires k <= mv.n && InRange(mv)
    ensures var cell := CellAt(c, env, r, x);
            CellAt(Target(canon, c, env, mv, k), env, r, x)
            == if r == mv.to && mv.d <= x < mv.d + k then
                 CellAt(Readable(canon, c, mv), env, mv.from, mv.s + (x - mv.d))
               else if r == mv.to && Cut(cell, x, mv.d, k) then LeftOver(canon, r, cell)
               else cell
  {
    hide Overwrite, Readable, LeftOver, CellAt;
    OverwriteAt(canon, c, env, mv.to, mv.d, SourceCells(Readable(canon, c, mv), env, mv.from, mv.s, k), r, x);
  }

  /** After k bytes: everything but the rest of the destination is as it should be, and no slot
      crosses from the copied part into that rest. */
  ghost predicate Copied(canon: Region -> u64, m: SMem, c: CMem, env: Env, mv: Move, k: nat)
    requires k <= mv.n && InRange(mv)
  {
    && (forall r: Region :: ShadowOk(m.ShadowOf(r)) && SpelledOut(canon, m, env, r))
    && (forall r: Region, x: u64 :: !Pending(mv, k, r, x) ==>
          CellRel(r, CellAt(Target(canon, c, env, mv, k), env, r, x), ViewAt(m, env, r, x)))
    && (forall o :: o in m.ShadowOf(mv.to) && 0 < k ==> o + 8 <= mv.d + k || mv.d + k <= o)
  }

  lemma CopyStarts(canon: Region -> u64, m: SMem, c: CMem, env: Env, mv: Move)
    requires Copyable(canon, m, c, env, mv)
    ensures Copied(canon, m, c, env, mv, 0)
  {
    hide Eval, At, ViewAt, SpelledOut, Target;
    forall r: Region, x: u64
      ensures ShadowOk(m.ShadowOf(r))
              && CellRel(r, CellAt(Target(canon, c, env, mv, 0), env, r, x), ViewAt(m, env, r, x))
    {
      MemRelAt(canon, m, c, env, r);
      TargetAt(canon, c, env, mv, 0, r, x);
      assert CellRel(r, CellAt(c, env, r, x), ViewAt(m, env, r, x));
    }
  }

  lemma CopyEnds(canon: Region -> u64, m: SMem, c: CMem, env: Env, mv: Move)
    requires InRange(mv) && Copied(canon, m, c, env, mv, mv.n)
    ensures MemRel(canon, m, Target(canon, c, env, mv, mv.n), env)
  {
    hide Eval, At, Target, ViewAt, SpelledOut;
  }

  /** Of a cell outside the destination, what one more store leaves is what the whole copy so far leaves. */
  lemma CutFurther(canon: Region -> u64, m: SMem, m': SMem, c: CMem, env: Env, mv: Move, k: nat, k': nat, x: u64)
    requires InRange(mv) && k < k' <= mv.n && !(mv.d <= x < mv.d + k') && !Pending(mv, k, mv.to, x)
    requires ShadowOk(m.ShadowOf(mv.to)) && ShadowOk(m'.ShadowOf(mv.to))
    requires CellRel(mv.to, CellAt(Target(canon, c, env, mv, k), env, mv.to, x), ViewAt(m, env, mv.to, x))
    requires Outside(canon, m, m', env, mv.to, mv.d + k, k' - k, x)
    ensures CellRel(mv.to, CellAt(Target(canon, c, env, mv, k'), env, mv.to, x), ViewAt(m', env, mv.to, x))
  {
    hide Target, ViewAt, Robbed, Readable;
    TargetAt(canon, c, env, mv, k, mv.to, x);
    TargetAt(canon, c, env, mv, k', mv.to, x);
    RobbedIsCut(m, env, mv.to, mv.d + k, k' - k, x);
  }

  /** A copied cell stays as it is. */
  lemma CopiedStays(canon: Region -> u64, m: SMem, m': SMem, c: CMem, env: Env, mv: Move, k: nat, k': nat, x: u64)
    requires InRange(mv) && k < k' <= mv.n && mv.d <= x < mv.d + k
    requires Copied(canon, m, c, env, mv, k) && ShadowOk(m'.ShadowOf(mv.to))
    requires Outside(canon, m, m', env, mv.to, mv.d + k, k' - k, x)
    ensures CellRel(mv.to, CellAt(Target(canon, c, env, mv, k'), env, mv.to, x), ViewAt(m', env, mv.to, x))
  {
    hide Target, ViewAt, Readable, SpelledOut;
    assert !Pending(mv, k, mv.to, x);
    TargetAt(canon, c, env, mv, k, mv.to, x);
    TargetAt(canon, c, env, mv, k', mv.to, x);
    assert !Robbed(m.ShadowOf(mv.to), mv.d + k, k' - k, x);
  }

  /** Storing the next cells of the source advances the copy. */
  lemma CopyStep(canon: Region -> u64, m: SMem, m': SMem, c: CMem, env: Env, mv: Move, k: nat, cells: seq<Cell>)
    requires InRange(mv) && 1 <= |cells| && k + |cells| <= mv.n
    requires Copied(canon, m, c, env, mv, k) && OnlyRegion(m, m', mv.to)
    requires ShadowOk(m'.ShadowOf(mv.to)) && SpelledOut(canon, m', env, mv.to)
    requires Stored(canon, m, m', env, mv.to, mv.d + k, cells)
    requires forall i :: 0 <= i < |cells| ==> cells[i] == CellAt(Readable(canon, c, mv), env, mv.from, mv.s + k + i)
    requires forall o :: o in m'.ShadowOf(mv.to) ==>
               (o == mv.d + k && |cells| == 8) || (o in m.ShadowOf(mv.to) && !Touches(o, mv.d + k, |cells|))
    ensures Copied(canon, m', c, env, mv, k + |cells|)
  {
    hide Eval, At, ViewAt, SpelledOut, Target, Readable, Outside, Robbed;
    var k' := k + |cells|;
    forall r: Region, x: u64 | !Pending(mv, k', r, x)
      ensures ShadowOk(m'.ShadowOf(r))
              && CellRel(r, CellAt(Target(canon, c, env, mv, k'), env, r, x), ViewAt(m', env, r, x))
    {
      CopyStepAt(canon, m, m', c, env, mv, k, cells, r, x);
    }
    forall r: Region
      ensures ShadowOk(m'.ShadowOf(r)) && SpelledOut(canon, m', env, r)
    {
      if r != mv.to {
        assert ShadowOk(m.ShadowOf(r)) && SpelledOut(canon, m, env, r);
        SameSpelling(canon, m, m', env, r);
      }
    }
  }

  lemma CopyStepAt(canon: Region -> u64, m: SMem, m': SMem, c: CMem, env: Env, mv: Move, k: nat, cells: seq<Cell>,
                   r: Region, x: u64)
    requires InRange(mv) && 1 <= |cells| && k + |cells| <= mv.n && !Pending(mv, k + |cells|, r, x)
    requires Copied(canon, m, c, env, mv, k) && OnlyRegion(m, m', mv.to) && ShadowOk(m'.ShadowOf(mv.to))
    requires Stored(canon, m, m', env, mv.to, mv.d + k, cells)
    requires forall i :: 0 <= i < |cells| ==> cells[i] == CellAt(Readable(canon, c, mv), env, mv.from, mv.s + k + i)
    ensures ShadowOk(m'.ShadowOf(r))
            && CellRel(r, CellAt(Target(canon, c, env, mv, k + |cells|), env, r, x), ViewAt(m', env, r, x))
  {
    hide Eval, At, ViewAt, SpelledOut, Target, Readable, Outside, Robbed;
    var k' := k + |cells|;
    if r != mv.to {
      assert !Pending(mv, k, r, x);
      assert ShadowOk(m.ShadowOf(r));
      SameView(m, m', env, r, x);
      TargetAt(canon, c, env, mv, k', r, x);
      TargetAt(canon, c, env, mv, k, r, x);
    } else if mv.d + k <= x < mv.d + k' {
      assert ViewAt(m', env, r, x) == cells[x - (mv.d + k)];
      TargetAt(canon, c, env, mv, k', r, x);
    } else if mv.d <= x < mv.d + k {
      assert Outside(canon, m, m', env, r, mv.d + k, |cells|, x);
      CopiedStays(canon, m, m', c, env, mv, k, k', x);
    } else {
      assert Outside(canon, m, m', env, r, mv.d + k, |cells|, x);
      assert !Pending(mv, k, r, x);
      CutFurther(canon, m, m', c, env, mv, k, k', x);
    }
  }

  /** A source cell the executor can describe is what the copy reads there. */
  lemma SourceCell(canon: Region -> u64, m: SMem, c: CMem, env: Env, mv: Move, k: nat, x: u64)
    requires InRange(mv) && k <= mv.n && mv.s <= x < mv.s + mv.n && Copied(canon, m, c, env, mv, k)
    requires !CellAt(Readable(canon, c, mv), env, mv.from, x).Lost?
    requires ViewAt(m, env, mv.from, x).Raw? || CutFree(mv, ViewAt(m, env, mv.from, x), x)
    ensures CellAt(Readable(canon, c, mv), env, mv.from, x) == ViewAt(m, env, mv.from, x)
  {
    hide Target, ViewAt, SpelledOut;
    assert !Pending(mv, k, mv.from, x);
    TargetAt(canon, c, env, mv, k, mv.from, x);
    CutPointersAt(canon, c, env, mv.to, mv.d, mv.n, mv.from, x);
    hide CutPointers, Copied;
  }

  /** The cell's pointer does not reach into the destination. */
  ghost predicate CutFree(mv: Move, c: Cell, x: u64) {
    !(mv.to == mv.from && Cut(c, x, mv.d, mv.n))
  }

  ghost function MoveOf(dst: SVal, src: SVal, n: nat, env: Env): (mv: Move) {
    Move(Locate(dst).0, Eval(Locate(dst).1, env), Locate(src).0, Eval(Locate(src).1, env), n)
  }

  lemma DisplacedAt(p: SVal, k: nat, env: Env)
    requires Eval(Locate(p).1, env) + k < TWO64
    ensures Locate(SymDisplace(p, k)) == (Locate(p).0, Plus(Locate(p).1, k))
    ensures Eval(Plus(Locate(p).1, k), env) == Eval(Locate(p).1, env) + k
  {
    PlusValue(Locate(p).1, k, env);
    hide Eval;
  }

  /** A byte the executor loads from the source is the source's cell. */
  lemma LoadedByte(canon: Region -> u64, solver: Solver, m: SMem, c: CMem, env: Env, src: SVal, mv: Move, k: nat)
    requires solver.Sound() && InRange(mv) && k < mv.n && Unlost(canon, c, env, mv)
    requires mv.from == Locate(src).0 && mv.s == Eval(Locate(src).1, env)
    requires Copied(canon, m, c, env, mv, k) && SymLoad(solver, m, SymDisplace(src, k), 1).Ok?
    ensures var v := SymLoad(solver, m, SymDisplace(src, k), 1).value;
            && v.SData? && Eval(v.t, env) < 256
            && CellAt(Readable(canon, c, mv), env, mv.from, mv.s + k) == Raw(Eval(v.t, env))
  {
    hide At, ViewAt, EvalBin, SymDisplace, Target, Readable, SpelledOut;
    DisplacedAt(src, k, env);
    var addr := Plus(Locate(src).1, k);
    var x: u64 := mv.s + k;
    var sh := m.ShadowOf(mv.from);
    assert Eval(solver.simplify(addr), env) == x;
    assert ShadowOk(sh);
    assert forall o: u64 :: Covers(sh, o, x) ==> o in sh.Keys && Touches(o, x, 1);
    assert ViewAt(m, env, mv.from, x) == Raw(At(m.Arr(mv.from), x, env)) by { RawView(m, env, mv.from, x); }
    SourceCell(canon, m, c, env, mv, k, x);
    assert LoadTerm(m.Arr(mv.from), addr, 0, 1) == Select(m.Arr(mv.from), Plus(addr, 0));
    PlusValue(addr, 0, env);
  }

  lemma CopyByte(canon: Region -> u64, solver: Solver, m: SMem, c: CMem, env: Env, dst: SVal, src: SVal, mv: Move,
                 k: nat)
    requires solver.Sound() && InRange(mv) && k < mv.n && Unlost(canon, c, env, mv)
    requires mv == MoveOf(dst, src, mv.n, env) && Copied(canon, m, c, env, mv, k)
    requires SymLoad(solver, m, SymDisplace(src, k), 1).Ok?
    requires SymStore(canon, solver, m, SymDisplace(dst, k), 1, SymLoad(solver, m, SymDisplace(src, k), 1).value).Ok?
    ensures Copied(canon,
                   SymStore(canon, solver, m, SymDisplace(dst, k), 1,
                            SymLoad(solver, m, SymDisplace(src, k), 1).value).value, c, env, mv, k + 1)
  {
    hide Eval, At, SymLoad, SymStore, SymDisplace, Copied, SpelledOut, Readable, Stored, CanonBits, Unlost;
    LoadedByte(canon, solver, m, c, env, src, mv, k);
    var v := SymLoad(solver, m, SymDisplace(src, k), 1).value;
    DisplacedAt(dst, k, env);
    CopiedShadow(canon, m, c, env, mv, k);
    StoreStored(canon, solver, m, env, SymDisplace(dst, k), v, 1);
    var m' := SymStore(canon, solver, m, SymDisplace(dst, k), 1, v).value;
    var cells := CellsOf(canon, EvalVal(v, env), 1);
    assert cells[0] == Raw(Eval(v.t, env));
    CopyStep(canon, m, m', c, env, mv, k, cells);
  }

  lemma CopiedShadow(canon: Region -> u64, m: SMem, c: CMem, env: Env, mv: Move, k: nat)
    requires k <= mv.n && InRange(mv) && Copied(canon, m, c, env, mv, k)
    ensures forall r: Region :: ShadowOk(m.ShadowOf(r)) && SpelledOut(canon, m, env, r)
  {
    hide SpelledOut;
  }

  /** Whether the next eight source bytes are a whole stored pointer. */
  function SlotAt(solver: Solver, m: SMem, p: SVal): (v: Option<SVal>) {
    if p.SData? then None
    else
      match ConcreteAddr(solver, p.off)
      case Bail => None
      case Ok(a) => if a in m.ShadowOf(p.r) then Some(m.ShadowOf(p.r)[a]) else None
  }

  /** The eight source cells under a slot are its pointer. */
  lemma SlotCells(canon: Region -> u64, m: SMem, c: CMem, env: Env, mv: Move, k: nat, v: SVal)
    requires InRange(mv) && k + 8 <= mv.n && Unlost(canon, c, env, mv)
    requires Copied(canon, m, c, env, mv, k) && mv.s + k in m.ShadowOf(mv.from) && m.ShadowOf(mv.from)[mv.s + k] == v
    ensures v.SPtr? && forall i :: 0 <= i < 8 ==>
              CellAt(Readable(canon, c, mv), env, mv.from, mv.s + k + i) == Frag(v.r, Eval(v.off, env), i)
  {
    hide Eval, At, SpelledOut, Target, Readable;
    assert ShadowOk(m.ShadowOf(mv.from));
    forall i | 0 <= i < 8
      ensures CellAt(Readable(canon, c, mv), env, mv.from, mv.s + k + i) == Frag(v.r, Eval(v.off, env), i)
    {
      var x: u64 := mv.s + k + i;
      ViewOfSlot(m, env, mv.from, mv.s + k, x);
      SourceCell(canon, m, c, env, mv, k, x);
    }
  }

  lemma SlotFound(solver: Solver, m: SMem, src: SVal, k: nat, env: Env)
    requires solver.Sound() && Eval(Locate(src).1, env) + k < TWO64
    requires SlotAt(solver, m, SymDisplace(src, k)).Some?
    ensures var sh := m.ShadowOf(Locate(src).0);
            var a := Eval(Locate(src).1, env) + k;
            a in sh && SlotAt(solver, m, SymDisplace(src, k)) == Some(sh[a])
  {
    hide EvalBin;
    DisplacedAt(src, k, env);
    var q := SymDisplace(src, k);
    assert Eval(solver.simplify(q.off), env) == Eval(q.off, env);
  }

  lemma CopyPointer(canon: Region -> u64, solver: Solver, m: SMem, c: CMem, env: Env, dst: SVal, src: SVal, mv: Move,
                    k: nat)
    requires solver.Sound() && InRange(mv) && k + 8 <= mv.n && Unlost(canon, c, env, mv)
    requires mv == MoveOf(dst, src, mv.n, env) && Copied(canon, m, c, env, mv, k)
    requires SlotAt(solver, m, SymDisplace(src, k)).Some?
    requires SymStore(canon, solver, m, SymDisplace(dst, k), 8, SlotAt(solver, m, SymDisplace(src, k)).value).Ok?
    ensures Copied(canon,
                   SymStore(canon, solver, m, SymDisplace(dst, k), 8,
                            SlotAt(solver, m, SymDisplace(src, k)).value).value, c, env, mv, k + 8)
  {
    hide At, SymStore, SpelledOut, Copied, Eval, SymDisplace, SlotAt, Readable, Stored, CanonBits, Unlost;
    SlotFound(solver, m, src, k, env);
    DisplacedAt(dst, k, env);
    CopiedShadow(canon, m, c, env, mv, k);
    var v := SlotAt(solver, m, SymDisplace(src, k)).value;
    SlotCells(canon, m, c, env, mv, k, v);
    StoreStored(canon, solver, m, env, SymDisplace(dst, k), v, 8);
    var m' := SymStore(canon, solver, m, SymDisplace(dst, k), 8, v).value;
    CopyStep(canon, m, m', c, env, mv, k, CellsOf(canon, EvalVal(v, env), 8));
  }

  /** Whatever memory the symbolic one describes, the copy has got k bytes far. */
  ghost predicate Advanced(canon: Region -> u64, m: SMem, cur: SMem, dst: SVal, src: SVal, n: nat, k: nat)
    requires k <= n
  {
    forall c, env :: Copyable(canon, m, c, env, MoveOf(dst, src, n, env)) ==>
      Copied(canon, cur, c, env, MoveOf(dst, src, n, env), k)
  }

  lemma AdvanceStart(canon: Region -> u64, m: SMem, dst: SVal, src: SVal, n: nat)
    ensures Advanced(canon, m, m, dst, src, n, 0)
  {
    hide Copied;
    forall c, env | Copyable(canon, m, c, env, MoveOf(dst, src, n, env))
      ensures Copied(canon, m, c, env, MoveOf(dst, src, n, env), 0)
    {
      CopyStarts(canon, m, c, env, MoveOf(dst, src, n, env));
    }
  }

  lemma AdvancePointer(canon: Region -> u64, solver: Solver, m: SMem, cur: SMem, dst: SVal, src: SVal, n: nat, k: nat,
                       v: SVal)
    requires solver.Sound() && k + 8 <= n && Advanced(canon, m, cur, dst, src, n, k)
    requires SlotAt(solver, cur, SymDisplace(src, k)) == Some(v)
             && SymStore(canon, solver, cur, SymDisplace(dst, k), 8, v).Ok?
    ensures Advanced(canon, m, SymStore(canon, solver, cur, SymDisplace(dst, k), 8, v).value, dst, src, n, k + 8)
  {
    hide Copied, MemRel, SymStore, SymDisplace, Eval, Unlost, SlotAt;
    forall c, env | Copyable(canon, m, c, env, MoveOf(dst, src, n, env))
      ensures Copied(canon, SymStore(canon, solver, cur, SymDisplace(dst, k), 8, v).value, c, env,
                     MoveOf(dst, src, n, env), k + 8)
    {
      CopyPointer(canon, solver, cur, c, env, dst, src, MoveOf(dst, src, n, env), k);
    }
  }

  lemma AdvanceByte(canon: Region -> u64, solver: Solver, m: SMem, cur: SMem, dst: SVal, src: SVal, n: nat, k: nat,
                    v: SVal)
    requires solver.Sound() && k < n && Advanced(canon, m, cur, dst, src, n, k)
    requires SymLoad(solver, cur, SymDisplace(src, k), 1) == Ok(v)
             && SymStore(canon, solver, cur, SymDisplace(dst, k), 1, v).Ok?
    ensures Advanced(canon, m, SymStore(canon, solver, cur, SymDisplace(dst, k), 1, v).value, dst, src, n, k + 1)
  {
    hide Copied, MemRel, SymStore, SymLoad, SymDisplace, Eval, Unlost;
    forall c, env | Copyable(canon, m, c, env, MoveOf(dst, src, n, env))
      ensures Copied(canon, SymStore(canon, solver, cur, SymDisplace(dst, k), 1, v).value, c, env,
                     MoveOf(dst, src, n, env), k + 1)
    {
      CopyByte(canon, solver, cur, c, env, dst, src, MoveOf(dst, src, n, env), k);
    }
  }

  /** Byte copy that moves a stored pointer whole. On every memory the symbolic one describes, data
      and pointers alike arrive as they were. */
  method CopyPreservingPointers(canon: Region -> u64, solver: Solver, m: SMem, dst: SVal, src: SVal, n: nat)
      returns (r: Result<SMem>)
    requires solver.Sound()
    ensures r.Ok? ==> forall c, env :: Copyable(canon, m, c, env, MoveOf(dst, src, n, env)) ==>
              MemRel(canon, r.value, Target(canon, c, env, MoveOf(dst, src, n, env), n), env)
  {
    var cur := m;
    var k := 0;
    AdvanceStart(canon, m, dst, src, n);
    while k < n
      invariant 0 <= k <= n
      invariant Advanced(canon, m, cur, dst, src, n, k)
    {
      hide Advanced, SymStore, SymLoad, SymDisplace, SlotAt;
      var slot := if n - k >= 8 then SlotAt(solver, cur, SymDisplace(src, k)) else None;
      if slot.Some? {
        var stored := SymStore(canon, solver, cur, SymDisplace(dst, k), 8, slot.value);
        if stored.Bail? { return Bail; }
        AdvancePointer(canon, solver, m, cur, dst, src, n, k, slot.value);
        cur := stored.value;
        k := k + 8;
      } else {
        var loaded := SymLoad(solver, cur, SymDisplace(src, k), 1);
        if loaded.Bail? { return Bail; }
        var stored := SymStore(canon, solver, cur, SymDisplace(dst, k), 1, loaded.value);
        if stored.Bail? { return Bail; }
        AdvanceByte(canon, solver, m, cur, dst, src, n, k, loaded.value);
        cur := stored.value;
        k := k + 1;
      }
    }
    hide Copied, MemRel, Eval, Unlost;
    forall c, env | Copyable(canon, m, c, env, MoveOf(dst, src, n, env))
      ensures MemRel(canon, cur, Target(canon, c, env, MoveOf(dst, src, n, env), n), env)
    {
      CopyEnds(canon, cur, c, env, MoveOf(dst, src, n, env));
    }
    return Ok(cur);
  }
}
