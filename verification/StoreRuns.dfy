/** What the shadow holds after any run of accepted stores. */
module StoreRuns {
  import opened Words
  import opened Terms
  import opened Memory

  type Width = n: nat | 1 <= n <= 8 witness 1

  datatype StoreOp = StoreOp(p: SVal, size: Width, val: SVal) {
    /** Region and address stored to. */
    ghost function Place(env: Env): (ra: (Region, u64)) {
      (Locate(p).0, Eval(Locate(p).1, env))
    }
    /** Overlaps the eight bytes at o. */
    ghost predicate Hits(env: Env, r: Region, o: u64) {
      Place(env).0 == r && Touches(o, Place(env).1, size)
    }
    /** Stores a whole pointer at o. */
    ghost predicate Spills(env: Env, r: Region, o: u64) {
      val.SPtr? && size == 8 && Place(env) == (r, o)
    }
    ghost predicate Wraps(env: Env) {
      Place(env).1 + size > TWO64
    }
  }

  /** The memory after storing in order, starting from nothing stored. */
  function Stores(canon: Region -> u64, solver: Solver, ops: seq<StoreOp>): (m: Result<SMem>) {
    if ops == [] then Ok(SMem(map[], map[]))
    else
      var op := ops[|ops| - 1];
      var m :- Stores(canon, solver, ops[..|ops| - 1]);
      SymStore(canon, solver, m, op.p, op.size, op.val)
  }

  /** The last store that overlaps the eight bytes at o. */
  ghost function LastHit(ops: seq<StoreOp>, env: Env, r: Region, o: u64): (op: Option<StoreOp>)
    ensures op.Some? ==> op.value in ops && op.value.Hits(env, r, o)
    ensures op.None? ==> forall p :: p in ops ==> !p.Hits(env, r, o)
  {
    if ops == [] then None
    else if ops[|ops| - 1].Hits(env, r, o) then Some(ops[|ops| - 1])
    else LastHit(ops[..|ops| - 1], env, r, o)
  }

  lemma LastHitStep(ops: seq<StoreOp>, env: Env, r: Region, o: u64)
    ensures LastHit(ops, env, r, o) ==
            if ops == [] then None
            else if ops[|ops| - 1].Hits(env, r, o) then Some(ops[|ops| - 1])
            else LastHit(ops[..|ops| - 1], env, r, o)
  {
  }

  /** In every reachable memory a slot is live at o exactly when the last store overlapping its eight
      bytes stored a pointer there, and it then holds that pointer. */
  lemma {:induction false} SlotIsLastStore(canon: Region -> u64, solver: Solver, ops: seq<StoreOp>, env: Env,
                                           r: Region, o: u64)
    requires solver.Sound() && Stores(canon, solver, ops).Ok?
    ensures var sh := Stores(canon, solver, ops).value.ShadowOf(r);
            var last := LastHit(ops, env, r, o);
            && (o in sh <==> last.Some? && last.value.Spills(env, r, o))
            && (o in sh ==> sh[o] == last.value.val)
  {
    hide LastHit;
    LastHitStep(ops, env, r, o);
    if ops != [] {
      var before, op := ops[..|ops| - 1], ops[|ops| - 1];
      SlotIsLastStore(canon, solver, before, env, r, o);
      var m := Stores(canon, solver, before).value;
      StoredMemory(canon, solver, m, env, op.p, op.val, op.size);
      hide SymStore, Eval, StoreTerm;
    }
  }

  lemma SpilledOk(sh: Shadow, a: u64, val: SVal)
    requires ShadowOk(sh) && a + 8 <= TWO64 && val.SPtr?
    ensures ShadowOk(Untouched(sh, a, 8)[a := val])
  {
  }

  /** Slots never overlap, and where no store wraps none leaves the address space. */
  lemma {:induction false} SlotsAreDisjoint(canon: Region -> u64, solver: Solver, ops: seq<StoreOp>, env: Env,
                                            r: Region)
    requires solver.Sound() && Stores(canon, solver, ops).Ok?
    requires forall op :: op in ops ==> !op.Wraps(env)
    ensures ShadowOk(Stores(canon, solver, ops).value.ShadowOf(r))
  {
    if ops != [] {
      var before, op := ops[..|ops| - 1], ops[|ops| - 1];
      assert op in ops && forall p :: p in before ==> p in ops;
      SlotsAreDisjoint(canon, solver, before, env, r);
      var m := Stores(canon, solver, before).value;
      StoredMemory(canon, solver, m, env, op.p, op.val, op.size);
      hide SymStore, Eval, StoreTerm;
      hide Stores, ShadowOk, Untouched;
      var a := op.Place(env).1;
      UntouchedOk(m.ShadowOf(r), a, op.size);
      if op.val.SPtr? && op.size == 8 {
        SpilledOk(m.ShadowOf(r), a, op.val);
      }
    }
  }

  /** In every reachable memory an accepted eight-byte load returns a pointer exactly when the last
      store overlapping those bytes stored one there, and returns that pointer; an accepted load that
      returns data reads no byte of a live slot. */
  lemma LoadIsLastStore(canon: Region -> u64, solver: Solver, ops: seq<StoreOp>, env: Env, p: SVal, size: Width)
    requires solver.Sound() && Stores(canon, solver, ops).Ok?
    requires SymLoad(solver, Stores(canon, solver, ops).value, p, size).Ok?
    ensures var m := Stores(canon, solver, ops).value;
            var v := SymLoad(solver, m, p, size).value;
            var (r, a) := (Locate(p).0, Eval(Locate(p).1, env));
            var last := LastHit(ops, env, r, a);
            && (v.SPtr? <==> size == 8 && last.Some? && last.value.Spills(env, r, a))
            && (v.SPtr? ==> v == last.value.val)
            && (v.SData? ==> forall o, x: u64 :: a <= x < a + size ==> !Covers(m.ShadowOf(r), o, x))
  {
    hide Stores, LastHit, EvalBin, LoadTerm;
    var (r, addr) := Locate(p);
    var a := Eval(addr, env);
    assert Eval(solver.simplify(addr), env) == a;
    SlotIsLastStore(canon, solver, ops, env, r, a);
  }
}
