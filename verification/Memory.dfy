/** Loads and stores of the symbolic executor, with the shadow that keeps spilled pointers whole,
    and the block memory they describe. */
module Memory {
  import opened Words
  import opened Terms

  // ----- values -----

  /** What a symbolic register holds. */
  datatype SVal = SData(t: Term) | SPtr(r: Region, off: Term)

  /** What a machine register holds; Undef is residue the program may not read. */
  datatype CVal = Undef | Data(v: u64) | Ptr(r: Region, off: u64)

  ghost function EvalVal(s: SVal, env: Env): (c: CVal) {
    match s
    case SData(t) => Data(Eval(t, env))
    case SPtr(r, off) => Ptr(r, Eval(off, env))
  }

  /** A defined machine value is the value of the symbolic one. */
  ghost predicate ValRel(s: SVal, c: CVal, env: Env) {
    c.Undef? || c == EvalVal(s, env)
  }

  /** 64-bit identity of a pointer, given a 64-bit identity for each region. */
  function CanonBits(canon: Region -> u64, r: Region, off: u64): (v: u64) {
    (canon(r) + off) % TWO64
  }

  function CanonTerm(canon: Region -> u64, r: Region, off: Term): (t: Term) {
    Bin(OpAdd, W64, Const(canon(r)), off)
  }

  // ----- the block memory -----

  /** A byte of memory is data, one of the eight bytes of a stored pointer, or what a store that
      cut a stack pointer left behind. */
  datatype Cell = Raw(b: u8) | Frag(r: Region, off: u64, k: nat) | Lost

  /** The cells written so far; all others still hold their initial byte. */
  type CMem = map<(Region, u64), Cell>

  /** What makes a run of the machine end early: register residue was read, an access ran past the
      last address, or a load read what was left of a cut pointer. */
  datatype Trap = Residue | Wrap | LostByte

  /** Stuck: the access has no meaning (a pointer read in part, a store into an opaque block). */
  datatype Access<+T> = Fine(value: T) | Fault(why: Trap) | Stuck {
    predicate IsFailure() { !Fine? }
    function PropagateFailure<U>(): Access<U>
      requires !Fine?
    { if Fault? then Fault(why) else Stuck }
    function Extract(): T
      requires Fine?
    { value }
  }

  ghost function CellAt(m: CMem, env: Env, r: Region, a: u64): (c: Cell) {
    if (r, a) in m then m[(r, a)] else Raw(env.init(r.Initial(), a))
  }

  ghost function RawBytes(m: CMem, env: Env, r: Region, a: nat, n: nat): (bs: seq<u8>)
    requires a + n <= TWO64
    requires forall x: u64 :: a <= x < a + n ==> CellAt(m, env, r, x).Raw?
    ensures |bs| == n
    decreases n
  {
    if n == 0 then [] else [CellAt(m, env, r, a).b] + RawBytes(m, env, r, a + 1, n - 1)
  }

  ghost function LoadAt(m: CMem, env: Env, r: Region, a: u64, size: nat): (v: Access<CVal>)
    requires 1 <= size <= 8
  {
    if a + size > TWO64 then Fault(Wrap)
    else if exists x: u64 :: a <= x < a + size && CellAt(m, env, r, x).Lost? then Fault(LostByte)
    else if forall x: u64 :: a <= x < a + size ==> CellAt(m, env, r, x).Raw? then
      var bs := RawBytes(m, env, r, a, size);
      Pow256Bound(size);
      Fine(Data(LeValue(bs)))
    else
      var first := CellAt(m, env, r, a);
      if && size == 8 && first.Frag?
         && forall x: u64 :: a <= x < a + 8 ==> CellAt(m, env, r, x) == Frag(first.r, first.off, x - a)
      then Fine(Ptr(first.r, first.off))
      else Stuck
  }

  lemma Pow256Bound(n: nat)
    requires n <= 8
    ensures Pow256(n) <= TWO64
    decreases 8 - n
  {
    if n == 8 {
      Pow256Values();
    } else {
      Pow256Bound(n + 1);
    }
  }

  ghost function MachineLoad(m: CMem, env: Env, p: CVal, size: nat): (v: Access<CVal>)
    requires 1 <= size <= 8
  {
    match p
    case Undef => Fault(Residue)
    case Data(a) => LoadAt(m, env, Kmem, a, size)
    case Ptr(r, a) => if r.HasBytes() then LoadAt(m, env, r, a, size) else Stuck
  }

  function WriteCells(m: CMem, r: Region, a: nat, cells: seq<Cell>): (m': CMem)
    requires a + |cells| <= TWO64
  {
    if |cells| == 0 then m
    else
      var n := |cells| - 1;
      WriteCells(m, r, a, cells[..n])[(r, a + n) := cells[n]]
  }

  /** Writing a run of cells changes those addresses and no others. */
  lemma {:induction false} WriteCellsAt(m: CMem, env: Env, r: Region, a: nat, cells: seq<Cell>, r': Region, x: u64)
    requires a + |cells| <= TWO64
    ensures CellAt(WriteCells(m, r, a, cells), env, r', x)
            == if r' == r && a <= x < a + |cells| then cells[x - a] else CellAt(m, env, r', x)
  {
    if |cells| != 0 {
      WriteCellsAt(m, env, r, a, cells[..|cells| - 1], r', x);
    }
  }

  function DataCells(v: u64, size: nat): (cells: seq<Cell>)
    ensures |cells| == size
    ensures forall k :: 0 <= k < size ==> cells[k] == Raw(ByteOf(v, k))
  {
    seq(size, k requires 0 <= k < size => Raw(ByteOf(v, k)))
  }

  function PointerCells(r: Region, off: u64): (cells: seq<Cell>)
    ensures |cells| == 8
    ensures forall k :: 0 <= k < 8 ==> cells[k] == Frag(r, off, k)
  {
    seq(8, k requires 0 <= k < 8 => Frag(r, off, k))
  }

  /** The cells a store writes. */
  function CellsOf(canon: Region -> u64, val: CVal, size: nat): (cells: seq<Cell>)
    requires 1 <= size <= 8 && !val.Undef?
    ensures |cells| == size
  {
    match val
    case Data(v) => DataCells(v, size)
    case Ptr(q, off) => if size < 8 then DataCells(CanonBits(canon, q, off), size) else PointerCells(q, off)
  }

  /** The cell at x belongs to a pointer that a store of size cells at a overlaps. */
  predicate Cut(c: Cell, x: u64, a: nat, size: nat) {
    0 < size && c.Frag? && x - c.k < a + size && a < x - c.k + 8
  }

  /** What a cut pointer leaves behind: nothing on the stack, elsewhere the bytes of its identity. */
  function LeftOver(canon: Region -> u64, r: Region, c: Cell): (c': Cell)
    requires c.Frag?
  {
    if r.IsStack() then Lost else Raw(ByteOf(CanonBits(canon, c.r, c.off), c.k))
  }

  function CutPointers(canon: Region -> u64, m: CMem, r: Region, a: nat, size: nat): (m': CMem) {
    map p | p in m :: if p.0 == r && Cut(m[p], p.1, a, size) then LeftOver(canon, r, m[p]) else m[p]
  }

  lemma CutPointersAt(canon: Region -> u64, m: CMem, env: Env, r: Region, a: nat, size: nat, r': Region, x: u64)
    ensures var c := CellAt(m, env, r', x);
            CellAt(CutPointers(canon, m, r, a, size), env, r', x)
            == if r' == r && Cut(c, x, a, size) then LeftOver(canon, r, c) else c
  {
    hide LeftOver;
  }

  /** Overwrites a run of cells; the pointers it overlaps are gone. */
  function Overwrite(canon: Region -> u64, m: CMem, r: Region, a: nat, cells: seq<Cell>): (m': CMem)
    requires a + |cells| <= TWO64
  {
    WriteCells(CutPointers(canon, m, r, a, |cells|), r, a, cells)
  }

  lemma OverwriteAt(canon: Region -> u64, m: CMem, env: Env, r: Region, a: nat, cells: seq<Cell>, r': Region, x: u64)
    requires a + |cells| <= TWO64
    ensures var c := CellAt(m, env, r', x);
            CellAt(Overwrite(canon, m, r, a, cells), env, r', x)
            == if r' == r && a <= x < a + |cells| then cells[x - a]
               else if r' == r && Cut(c, x, a, |cells|) then LeftOver(canon, r, c)
               else c
  {
    hide WriteCells, CutPointers, LeftOver;
    CutPointersAt(canon, m, env, r, a, |cells|, r', x);
    WriteCellsAt(CutPointers(canon, m, r, a, |cells|), env, r, a, cells, r', x);
  }

  function StoreAt(canon: Region -> u64, m: CMem, r: Region, a: u64, size: nat, val: CVal): (m': Access<CMem>)
    requires 1 <= size <= 8
  {
    if val.Undef? then Fault(Residue)
    else if a + size > TWO64 then Fault(Wrap)
    else if !r.HasBytes() then Stuck
    else if val.Ptr? && size == 8 && !r.TakesPointers() then Stuck
    else Fine(Overwrite(canon, m, r, a, CellsOf(canon, val, size)))
  }

  function MachineStore(canon: Region -> u64, m: CMem, p: CVal, size: nat, val: CVal): (m': Access<CMem>)
    requires 1 <= size <= 8
  {
    match p
    case Undef => Fault(Residue)
    case Data(a) => StoreAt(canon, m, Kmem, a, size, val)
    case Ptr(r, a) => StoreAt(canon, m, r, a, size, val)
  }

  // ----- the symbolic memory -----

  /** Offset of a spilled pointer to the pointer. */
  type Shadow = map<u64, SVal>

  datatype SMem = SMem(arrs: map<Region, Array>, shadows: map<Region, Shadow>) {
    function Arr(r: Region): (arr: Array) {
      if r in arrs then arrs[r] else Base(r.Initial())
    }
    function ShadowOf(r: Region): (sh: Shadow) {
      if r in shadows then shadows[r] else map[]
    }
  }

  function Locate(p: SVal): (ra: (Region, Term)) {
    match p
    case SPtr(r, off) => (r, off)
    case SData(t) => (Kmem, t)
  }

  function Plus(t: Term, k: int): (s: Term) {
    Bin(OpAdd, W64, t, Const(k % TWO64))
  }

  function ConcreteAddr(solver: Solver, t: Term): (r: Result<u64>) {
    match solver.simplify(t)
    case Const(v) => Ok(v)
    case _ => Bail
  }

  predicate Touches(o: u64, a: u64, size: nat) {
    o < a + size && a < o + 8
  }

  function LoadTerm(arr: Array, addr: Term, k: nat, size: nat): (t: Term)
    requires k < size
    decreases size - k
  {
    var byte := Select(arr, Plus(addr, k));
    if k + 1 == size then byte else Cons8(byte, LoadTerm(arr, addr, k + 1, size))
  }

  function SymLoad(solver: Solver, m: SMem, p: SVal, size: nat): (r: Result<SVal>)
    requires 1 <= size <= 8
  {
    var (region, addr) := Locate(p);
    if !region.HasBytes() then Bail
    else
      var sh := m.ShadowOf(region);
      var data := SData(LoadTerm(m.Arr(region), addr, 0, size));
      if sh == map[] then Ok(data)
      else
        var a :- ConcreteAddr(solver, addr);
        if size == 8 && a in sh then Ok(sh[a])
        else if exists o | o in sh.Keys :: Touches(o, a, size) then Bail
        else Ok(data)
  }

  function StoreTerm(arr: Array, addr: Term, v: Term, size: nat): (r: Array) {
    if size == 0 then arr
    else Store(StoreTerm(arr, addr, v, size - 1), Plus(addr, size - 1), Byte(size - 1, v))
  }

  function Untouched(sh: Shadow, a: u64, size: nat): (r: Shadow) {
    map o | o in sh && !Touches(o, a, size) :: sh[o]
  }

  function SymStore(canon: Region -> u64, solver: Solver, m: SMem, p: SVal, size: nat, val: SVal): (r: Result<SMem>)
    requires 1 <= size <= 8
  {
    var (region, addr) := Locate(p);
    if !region.HasBytes() then Bail
    else if val.SPtr? && size == 8 then
      if !region.TakesPointers() then Bail
      else
        var a :- ConcreteAddr(solver, addr);
        var sh := Untouched(m.ShadowOf(region), a, 8)[a := val];
        var arr := if region.IsStack() then m.Arr(region)
                   else StoreTerm(m.Arr(region), addr, CanonTerm(canon, val.r, val.off), 8);
        Ok(SMem(m.arrs[region := arr], m.shadows[region := sh]))
    else
      var v := if val.SPtr? then CanonTerm(canon, val.r, val.off) else val.t;
      var arr := StoreTerm(m.Arr(region), addr, v, size);
      var sh := m.ShadowOf(region);
      if sh == map[] then Ok(SMem(m.arrs[region := arr], m.shadows))
      else
        var a :- ConcreteAddr(solver, addr);
        Ok(SMem(m.arrs[region := arr], m.shadows[region := Untouched(sh, a, size)]))
  }

  // ----- what the symbolic memory describes -----

  ghost predicate Covers(sh: Shadow, o: u64, a: u64) {
    o in sh && o <= a < o + 8
  }

  /** Slots hold pointers, lie inside the address space and do not overlap. */
  ghost predicate ShadowOk(sh: Shadow) {
    && (forall o :: o in sh ==> sh[o].SPtr? && o + 8 <= TWO64)
    && (forall o, o' :: o in sh && o' in sh && o < o' ==> o + 8 <= o')
  }

  ghost function ViewAt(m: SMem, env: Env, r: Region, a: u64): (c: Cell)
    requires ShadowOk(m.ShadowOf(r))
  {
    var sh := m.ShadowOf(r);
    if exists o :: Covers(sh, o, a) then
      var o :| Covers(sh, o, a);
      Frag(sh[o].r, Eval(sh[o].off, env), a - o)
    else
      Raw(At(m.Arr(r), a, env))
  }

  /** Outside the stack, the bytes under a slot spell the pointer's identity. */
  ghost predicate SpelledOut(canon: Region -> u64, m: SMem, env: Env, r: Region)
    requires ShadowOk(m.ShadowOf(r))
  {
    var sh := m.ShadowOf(r);
    !r.IsStack() ==>
      forall o, k :: o in sh && 0 <= k < 8 ==>
        At(m.Arr(r), o + k, env) == ByteOf(CanonBits(canon, sh[o].r, Eval(sh[o].off, env)), k)
  }

  /** A cell is what the symbolic memory says, or a lost byte of the stack. */
  predicate CellRel(r: Region, c: Cell, view: Cell) {
    c == view || (c.Lost? && r.IsStack())
  }

  ghost predicate MemRel(canon: Region -> u64, m: SMem, c: CMem, env: Env) {
    && (forall r: Region :: ShadowOk(m.ShadowOf(r)) && SpelledOut(canon, m, env, r))
    && (forall r: Region, a: u64 :: CellRel(r, CellAt(c, env, r, a), ViewAt(m, env, r, a)))
  }

  lemma ViewOfSlot(m: SMem, env: Env, r: Region, o: u64, a: u64)
    requires ShadowOk(m.ShadowOf(r)) && Covers(m.ShadowOf(r), o, a)
    ensures ViewAt(m, env, r, a) == Frag(m.ShadowOf(r)[o].r, Eval(m.ShadowOf(r)[o].off, env), a - o)
  {
  }

  // ----- loads -----

  lemma PlusValue(t: Term, k: nat, env: Env)
    requires Eval(t, env) + k < TWO64
    ensures Eval(Plus(t, k), env) == Eval(t, env) + k
  {
    hide EvalBin, Eval;
    BinTerm(OpAdd, W64, t, Const(k % TWO64), env);
    ConstValue(k % TWO64, env);
    AddWords(Eval(t, env), k);
  }

  lemma AddWords(x: u64, y: u64)
    ensures EvalBin(OpAdd, W64, x, y) == (x + y) % TWO64
  {
    hide ToSigned, TruncDiv, TruncRem, BitAnd, BitOr, BitXor, Pow2;
  }

  ghost function BytesAt(arr: Array, env: Env, a: nat, n: nat): (bs: seq<u8>)
    requires a + n <= TWO64
    ensures |bs| == n
    decreases n
  {
    if n == 0 then [] else [At(arr, a, env)] + BytesAt(arr, env, a + 1, n - 1)
  }

  lemma NoBytes(bs: seq<u8>)
    requires bs == []
    ensures LeValue(bs) == 0
  {
  }

  lemma Cons8Value(low: Term, rest: Term, env: Env)
    requires Eval(low, env) + 256 * Eval(rest, env) < TWO64
    ensures Eval(Cons8(low, rest), env) == Eval(low, env) + 256 * Eval(rest, env)
  {
    hide Eval;
    ConsTerm(low, rest, env);
    ModOfSmall(Eval(low, env) + 256 * Eval(rest, env), TWO64);
  }

  lemma {:induction false} LoadTermValue(arr: Array, env: Env, addr: Term, k: nat, size: nat)
    requires k < size <= 8 && Eval(addr, env) + size <= TWO64
    ensures Eval(LoadTerm(arr, addr, k, size), env) == LeValue(BytesAt(arr, env, Eval(addr, env) + k, size - k))
    decreases size - k
  {
    hide Eval, At, Plus, LeValue, Pow256;
    var a := Eval(addr, env);
    var byte := Select(arr, Plus(addr, k));
    PlusValue(addr, k, env);
    SelectTerm(arr, Plus(addr, k), env);
    var bs := BytesAt(arr, env, a + k, size - k);
    assert bs[1..] == BytesAt(arr, env, a + k + 1, size - k - 1);
    LeStep(bs);
    Pow256Bound(size - k);
    if k + 1 < size {
      LoadTermValue(arr, env, addr, k + 1, size);
      Cons8Value(byte, LoadTerm(arr, addr, k + 1, size), env);
    } else {
      assert LeValue(bs[1..]) == 0 by { NoBytes(bs[1..]); }
    }
  }

  lemma {:induction false} RawBytesAre(m: SMem, c: CMem, env: Env, r: Region, a: nat, n: nat)
    requires a + n <= TWO64
    requires forall x: u64 :: a <= x < a + n ==> CellAt(c, env, r, x) == Raw(At(m.Arr(r), x, env))
    ensures RawBytes(c, env, r, a, n) == BytesAt(m.Arr(r), env, a, n)
    decreases n
  {
    if n != 0 {
      RawBytesAre(m, c, env, r, a + 1, n - 1);
    }
  }

  /** Cells that are all data read as the term that selects them. */
  lemma LoadOfData(m: SMem, c: CMem, env: Env, r: Region, addr: Term, size: nat)
    requires 1 <= size <= 8 && Eval(addr, env) + size <= TWO64
    requires forall x: u64 :: Eval(addr, env) <= x < Eval(addr, env) + size ==>
                                CellAt(c, env, r, x) == Raw(At(m.Arr(r), x, env))
    ensures LoadAt(c, env, r, Eval(addr, env), size) == Fine(Data(Eval(LoadTerm(m.Arr(r), addr, 0, size), env)))
  {
    hide Eval, At, LoadTerm, LeValue, Pow256, RawBytes, BytesAt;
    LoadTermValue(m.Arr(r), env, addr, 0, size);
    RawBytesAre(m, c, env, r, Eval(addr, env), size);
  }

  /** The cells of a slot read as its pointer. */
  lemma LoadOfSlot(m: SMem, c: CMem, env: Env, r: Region, a: u64)
    requires ShadowOk(m.ShadowOf(r)) && a in m.ShadowOf(r)
    requires forall x: u64 :: a <= x < a + 8 ==> CellAt(c, env, r, x) == ViewAt(m, env, r, x)
    ensures LoadAt(c, env, r, a, 8) == Fine(EvalVal(m.ShadowOf(r)[a], env))
  {
    hide Eval, At;
    var sh := m.ShadowOf(r);
    forall x: u64 | a <= x < a + 8
      ensures CellAt(c, env, r, x) == Frag(sh[a].r, Eval(sh[a].off, env), x - a)
    {
      ViewOfSlot(m, env, r, a, x);
    }
  }

  /** A load the executor accepts returns what the machine's load returns. */
  lemma LoadAgrees(canon: Region -> u64, solver: Solver, m: SMem, c: CMem, env: Env, p: SVal, q: CVal, size: nat)
    requires 1 <= size <= 8 && solver.Sound()
    requires MemRel(canon, m, c, env) && ValRel(p, q, env)
    requires SymLoad(solver, m, p, size).Ok?
    ensures var v := MachineLoad(c, env, q, size);
            v.Fault? || v == Fine(EvalVal(SymLoad(solver, m, p, size).value, env))
  {
    hide At, LoadTerm;
    var (r, addr) := Locate(p);
    var a := Eval(addr, env);
    var sh := m.ShadowOf(r);
    if !q.Undef? && a + size <= TWO64 && forall x: u64 :: a <= x < a + size ==> !CellAt(c, env, r, x).Lost? {
      forall x: u64 | a <= x < a + size
        ensures CellAt(c, env, r, x) == ViewAt(m, env, r, x)
      {
        assert CellRel(r, CellAt(c, env, r, x), ViewAt(m, env, r, x));
      }
      assert Eval(solver.simplify(addr), env) == a;
      hide EvalBin;
      if sh != map[] && size == 8 && a in sh {
        LoadOfSlot(m, c, env, r, a);
      } else {
        hide Eval, LoadAt;
        forall x: u64 | a <= x < a + size
          ensures CellAt(c, env, r, x) == Raw(At(m.Arr(r), x, env))
        {
          assert CellAt(c, env, r, x) == ViewAt(m, env, r, x);
        }
        LoadOfData(m, c, env, r, addr, size);
      }
    }
  }

  // ----- stores -----

  lemma {:induction false} StoreTermAt(arr: Array, addr: Term, v: Term, size: nat, env: Env, x: u64)
    requires Eval(addr, env) + size <= TWO64
    ensures At(StoreTerm(arr, addr, v, size), x, env)
            == if Eval(addr, env) <= x < Eval(addr, env) + size then ByteOf(Eval(v, env), x - Eval(addr, env))
               else At(arr, x, env)
  {
    hide ByteOf, Eval, At, Plus;
    if size != 0 {
      var k := size - 1;
      StoreTermAt(arr, addr, v, k, env, x);
      PlusValue(addr, k, env);
      ByteTerm(k, v, env);
      StoreArray(StoreTerm(arr, addr, v, k), Plus(addr, k), Byte(k, v), env, x);
    }
  }

  lemma CanonValue(canon: Region -> u64, r: Region, off: Term, env: Env)
    ensures Eval(CanonTerm(canon, r, off), env) == CanonBits(canon, r, Eval(off, env))
  {
    hide EvalBin;
    AddWords(canon(r), Eval(off, env));
  }

  ghost predicate OnlyRegion(m: SMem, m': SMem, r: Region) {
    forall r': Region :: r' != r ==> m'.Arr(r') == m.Arr(r') && m'.ShadowOf(r') == m.ShadowOf(r')
  }

  lemma SameView(m: SMem, m': SMem, env: Env, r: Region, x: u64)
    requires ShadowOk(m.ShadowOf(r)) && m'.ShadowOf(r) == m.ShadowOf(r) && m'.Arr(r) == m.Arr(r)
    ensures ViewAt(m', env, r, x) == ViewAt(m, env, r, x)
  {
    var sh := m.ShadowOf(r);
    if exists o :: Covers(sh, o, x) {
      var o :| Covers(sh, o, x);
      ViewOfSlot(m, env, r, o, x);
      ViewOfSlot(m', env, r, o, x);
    }
  }

  lemma UntouchedOk(sh: Shadow, a: u64, size: nat)
    requires ShadowOk(sh)
    ensures ShadowOk(Untouched(sh, a, size))
  {
  }

  /** The cell is part of a pointer the store touches. */
  ghost predicate Robbed(sh: Shadow, a: u64, size: nat, x: u64) {
    exists o :: Covers(sh, o, x) && Touches(o, a, size)
  }

  /** What a store does to a cell it does not overwrite. */
  ghost predicate Outside(canon: Region -> u64, m: SMem, m': SMem, env: Env, r: Region, a: u64, size: nat, x: u64)
    requires ShadowOk(m.ShadowOf(r)) && ShadowOk(m'.ShadowOf(r))
  {
    var view, view' := ViewAt(m, env, r, x), ViewAt(m', env, r, x);
    if Robbed(m.ShadowOf(r), a, size, x) then view.Frag? && (r.IsStack() || view' == LeftOver(canon, r, view))
    else view' == view
  }

  /** The run of cells is overwritten; of the pointers it touched, identities are left outside the
      stack; every other cell is kept. */
  ghost predicate Stored(canon: Region -> u64, m: SMem, m': SMem, env: Env, r: Region, a: u64, cells: seq<Cell>)
    requires a + |cells| <= TWO64 && ShadowOk(m.ShadowOf(r)) && ShadowOk(m'.ShadowOf(r))
  {
    forall x: u64 ::
      if a <= x < a + |cells| then ViewAt(m', env, r, x) == cells[x - a]
      else Outside(canon, m, m', env, r, a, |cells|, x)
  }

  lemma RobbedIsCut(m: SMem, env: Env, r: Region, a: u64, size: nat, x: u64)
    requires 1 <= size && ShadowOk(m.ShadowOf(r))
    ensures Robbed(m.ShadowOf(r), a, size, x) <==> Cut(ViewAt(m, env, r, x), x, a, size)
  {
    hide Eval, At;
  }

  /** Outside the stack, the bytes under a robbed cell spell its pointer's identity. */
  lemma RobbedBytes(canon: Region -> u64, m: SMem, env: Env, r: Region, a: u64, size: nat, x: u64)
    requires ShadowOk(m.ShadowOf(r)) && SpelledOut(canon, m, env, r)
    requires Robbed(m.ShadowOf(r), a, size, x)
    ensures ViewAt(m, env, r, x).Frag?
    ensures r.IsStack() || Raw(At(m.Arr(r), x, env)) == LeftOver(canon, r, ViewAt(m, env, r, x))
  {
    hide Eval, At, ByteOf, CanonBits;
    var sh := m.ShadowOf(r);
    var o: u64 :| Covers(sh, o, x) && Touches(o, a, size);
    ViewOfSlot(m, env, r, o, x);
    var id := CanonBits(canon, sh[o].r, Eval(sh[o].off, env));
    assert r.IsStack() || At(m.Arr(r), o + (x - o), env) == ByteOf(id, x - o);
  }

  lemma RawView(m: SMem, env: Env, r: Region, x: u64)
    requires ShadowOk(m.ShadowOf(r)) && !(exists o :: Covers(m.ShadowOf(r), o, x))
    ensures ViewAt(m, env, r, x) == Raw(At(m.Arr(r), x, env))
  {
    hide Eval, At;
  }

  /** A memory that has been stored to describes the cells the machine's store leaves. */
  lemma OverwriteAgrees(canon: Region -> u64, m: SMem, m': SMem, c: CMem, env: Env, r: Region, a: u64, cells: seq<Cell>)
    requires MemRel(canon, m, c, env) && OnlyRegion(m, m', r) && 1 <= |cells| && a + |cells| <= TWO64
    requires ShadowOk(m'.ShadowOf(r)) && SpelledOut(canon, m', env, r)
    requires Stored(canon, m, m', env, r, a, cells)
    ensures MemRel(canon, m', Overwrite(canon, c, r, a, cells), env)
  {
    hide Eval, At, Overwrite, ViewAt, SpelledOut, Robbed;
    forall r': Region, x: u64
      ensures ShadowOk(m'.ShadowOf(r'))
              && CellRel(r', CellAt(Overwrite(canon, c, r, a, cells), env, r', x), ViewAt(m', env, r', x))
    {
      OverwriteAt(canon, c, env, r, a, cells, r', x);
      assert CellRel(r', CellAt(c, env, r', x), ViewAt(m, env, r', x));
      if r' != r {
        SameView(m, m', env, r', x);
      } else {
        RobbedIsCut(m, env, r, a, |cells|, x);
      }
    }
    forall r': Region
      ensures ShadowOk(m'.ShadowOf(r')) && SpelledOut(canon, m', env, r')
    {
      if r' != r {
        assert SpelledOut(canon, m, env, r');
        SameSpelling(canon, m, m', env, r');
      }
    }
  }

  lemma SameSpelling(canon: Region -> u64, m: SMem, m': SMem, env: Env, r: Region)
    requires ShadowOk(m.ShadowOf(r)) && m'.ShadowOf(r) == m.ShadowOf(r) && m'.Arr(r) == m.Arr(r)
    requires SpelledOut(canon, m, env, r)
    ensures SpelledOut(canon, m', env, r)
  {
    hide Eval, At;
  }

  /** A store that keeps the other bytes and drops exactly the touched slots keeps the other cells. */
  lemma KeptOutside(canon: Region -> u64, m: SMem, m': SMem, env: Env, r: Region, a: u64, size: nat, x: u64)
    requires ShadowOk(m.ShadowOf(r)) && ShadowOk(m'.ShadowOf(r)) && SpelledOut(canon, m, env, r)
    requires !(a <= x < a + size) && At(m'.Arr(r), x, env) == At(m.Arr(r), x, env)
    requires var kept := Untouched(m.ShadowOf(r), a, size);
             m'.ShadowOf(r) == kept
               || (size == 8 && a in m'.ShadowOf(r) && m'.ShadowOf(r) == kept[a := m'.ShadowOf(r)[a]])
    ensures Outside(canon, m, m', env, r, a, size, x)
  {
    hide Eval, At, LeftOver, SpelledOut;
    if Robbed(m.ShadowOf(r), a, size, x) {
      RobbedBytes(canon, m, env, r, a, size, x);
      RawView(m', env, r, x);
    } else {
      SameSlots(m, m', env, r, x);
    }
  }

  /** Storing data. */
  lemma DataStored(canon: Region -> u64, m: SMem, m': SMem, env: Env, r: Region, addr: Term, v: Term, size: nat)
    requires 1 <= size <= 8 && Eval(addr, env) + size <= TWO64
    requires ShadowOk(m.ShadowOf(r)) && SpelledOut(canon, m, env, r)
    requires m'.Arr(r) == StoreTerm(m.Arr(r), addr, v, size)
    requires m'.ShadowOf(r) == Untouched(m.ShadowOf(r), Eval(addr, env), size)
    ensures ShadowOk(m'.ShadowOf(r)) && SpelledOut(canon, m', env, r)
    ensures Stored(canon, m, m', env, r, Eval(addr, env), DataCells(Eval(v, env), size))
  {
    hide Eval, At, StoreTerm, ByteOf, CanonBits, SpelledOut;
    var a := Eval(addr, env);
    var sh := m.ShadowOf(r);
    UntouchedOk(sh, a, size);
    DataSpelled(canon, m, m', env, r, addr, v, size);
    forall x: u64 | a <= x < a + size
      ensures ViewAt(m', env, r, x) == DataCells(Eval(v, env), size)[x - a]
    {
      StoreTermAt(m.Arr(r), addr, v, size, env, x);
    }
    forall x: u64 | !(a <= x < a + size)
      ensures Outside(canon, m, m', env, r, a, size, x)
    {
      StoreTermAt(m.Arr(r), addr, v, size, env, x);
      KeptOutside(canon, m, m', env, r, a, size, x);
    }
  }

  lemma DataSpelled(canon: Region -> u64, m: SMem, m': SMem, env: Env, r: Region, addr: Term, v: Term, size: nat)
    requires 1 <= size <= 8 && Eval(addr, env) + size <= TWO64
    requires ShadowOk(m.ShadowOf(r)) && SpelledOut(canon, m, env, r) && ShadowOk(m'.ShadowOf(r))
    requires m'.Arr(r) == StoreTerm(m.Arr(r), addr, v, size)
    requires m'.ShadowOf(r) == Untouched(m.ShadowOf(r), Eval(addr, env), size)
    ensures SpelledOut(canon, m', env, r)
  {
    hide Eval, At, StoreTerm, ByteOf, CanonBits;
    var sh' := m'.ShadowOf(r);
    if !r.IsStack() {
      forall o, k | o in sh' && 0 <= k < 8
        ensures At(m'.Arr(r), o + k, env) == ByteOf(CanonBits(canon, sh'[o].r, Eval(sh'[o].off, env)), k)
      {
        StoreTermAt(m.Arr(r), addr, v, size, env, o + k);
      }
    }
  }

  /** Storing a pointer. */
  lemma PointerStored(canon: Region -> u64, m: SMem, m': SMem, env: Env, r: Region, addr: Term, p: SVal)
    requires Eval(addr, env) + 8 <= TWO64 && p.SPtr?
    requires ShadowOk(m.ShadowOf(r)) && SpelledOut(canon, m, env, r)
    requires m'.Arr(r) == if r.IsStack() then m.Arr(r) else StoreTerm(m.Arr(r), addr, CanonTerm(canon, p.r, p.off), 8)
    requires m'.ShadowOf(r) == Untouched(m.ShadowOf(r), Eval(addr, env), 8)[Eval(addr, env) := p]
    ensures ShadowOk(m'.ShadowOf(r)) && SpelledOut(canon, m', env, r)
    ensures Stored(canon, m, m', env, r, Eval(addr, env), PointerCells(p.r, Eval(p.off, env)))
  {
    hide Eval, At, StoreTerm, ByteOf, CanonBits, CanonTerm, SpelledOut;
    var a := Eval(addr, env);
    UntouchedOk(m.ShadowOf(r), a, 8);
    var canonical := CanonTerm(canon, p.r, p.off);
    forall x: u64 | a <= x < a + 8
      ensures ViewAt(m', env, r, x) == PointerCells(p.r, Eval(p.off, env))[x - a]
    {
      ViewOfSlot(m', env, r, a, x);
    }
    forall x: u64 | !(a <= x < a + 8)
      ensures Outside(canon, m, m', env, r, a, 8, x)
    {
      StoreTermAt(m.Arr(r), addr, canonical, 8, env, x);
      KeptOutside(canon, m, m', env, r, a, 8, x);
    }
    PointerSpelled(canon, m, m', env, r, addr, p);
  }

  lemma PointerSpelled(canon: Region -> u64, m: SMem, m': SMem, env: Env, r: Region, addr: Term, p: SVal)
    requires Eval(addr, env) + 8 <= TWO64 && p.SPtr?
    requires ShadowOk(m.ShadowOf(r)) && SpelledOut(canon, m, env, r) && ShadowOk(m'.ShadowOf(r))
    requires m'.Arr(r) == if r.IsStack() then m.Arr(r) else StoreTerm(m.Arr(r), addr, CanonTerm(canon, p.r, p.off), 8)
    requires m'.ShadowOf(r) == Untouched(m.ShadowOf(r), Eval(addr, env), 8)[Eval(addr, env) := p]
    ensures SpelledOut(canon, m', env, r)
  {
    hide Eval, At, StoreTerm, ByteOf, CanonBits, CanonTerm;
    CanonValue(canon, p.r, p.off, env);
    var sh' := m'.ShadowOf(r);
    if !r.IsStack() {
      forall o, k | o in sh' && 0 <= k < 8
        ensures At(m'.Arr(r), o + k, env) == ByteOf(CanonBits(canon, sh'[o].r, Eval(sh'[o].off, env)), k)
      {
        StoreTermAt(m.Arr(r), addr, CanonTerm(canon, p.r, p.off), 8, env, o + k);
      }
    }
  }

  lemma SameSlots(m: SMem, m': SMem, env: Env, r: Region, x: u64)
    requires ShadowOk(m.ShadowOf(r)) && ShadowOk(m'.ShadowOf(r))
    requires At(m'.Arr(r), x, env) == At(m.Arr(r), x, env)
    requires forall o :: Covers(m.ShadowOf(r), o, x) || Covers(m'.ShadowOf(r), o, x) ==>
               Covers(m.ShadowOf(r), o, x) && Covers(m'.ShadowOf(r), o, x) && m'.ShadowOf(r)[o] == m.ShadowOf(r)[o]
    ensures ViewAt(m', env, r, x) == ViewAt(m, env, r, x)
  {
    hide Eval, At;
    if o: u64 :| Covers(m.ShadowOf(r), o, x) {
      ViewOfSlot(m, env, r, o, x);
      ViewOfSlot(m', env, r, o, x);
    }
  }

  lemma StoredMemory(canon: Region -> u64, solver: Solver, m: SMem, env: Env, p: SVal, val: SVal, size: nat)
    requires 1 <= size <= 8 && solver.Sound()
    requires SymStore(canon, solver, m, p, size, val).Ok?
    ensures var m' := SymStore(canon, solver, m, p, size, val).value;
            var (r, addr) := Locate(p);
            var a := Eval(addr, env);
            && OnlyRegion(m, m', r)
            && r.HasBytes()
            && if val.SPtr? && size == 8 then
                 && r.TakesPointers()
                 && m'.Arr(r) == (if r.IsStack() then m.Arr(r)
                                  else StoreTerm(m.Arr(r), addr, CanonTerm(canon, val.r, val.off), 8))
                 && m'.ShadowOf(r) == Untouched(m.ShadowOf(r), a, 8)[a := val]
               else
                 && m'.Arr(r) == StoreTerm(m.Arr(r), addr, if val.SPtr? then CanonTerm(canon, val.r, val.off)
                                           else val.t, size)
                 && m'.ShadowOf(r) == Untouched(m.ShadowOf(r), a, size)
  {
    hide At, StoreTerm, CanonTerm, EvalBin;
    var (r, addr) := Locate(p);
    assert Eval(solver.simplify(addr), env) == Eval(addr, env);
  }

  /** What an accepted store does to its region, whatever it touches. */
  lemma StoreStored(canon: Region -> u64, solver: Solver, m: SMem, env: Env, p: SVal, val: SVal, size: nat)
    requires 1 <= size <= 8 && solver.Sound()
    requires ShadowOk(m.ShadowOf(Locate(p).0)) && SpelledOut(canon, m, env, Locate(p).0)
    requires SymStore(canon, solver, m, p, size, val).Ok?
    requires Eval(Locate(p).1, env) + size <= TWO64
    ensures var m' := SymStore(canon, solver, m, p, size, val).value;
            var (r, a) := (Locate(p).0, Eval(Locate(p).1, env));
            && OnlyRegion(m, m', r)
            && ShadowOk(m'.ShadowOf(r)) && SpelledOut(canon, m', env, r)
            && Stored(canon, m, m', env, r, a, CellsOf(canon, EvalVal(val, env), size))
            && forall o :: o in m'.ShadowOf(r) ==> (o == a && size == 8) || (o in m.ShadowOf(r) && !Touches(o, a, size))
  {
    StoredMemory(canon, solver, m, env, p, val, size);
    var m' := SymStore(canon, solver, m, p, size, val).value;
    hide Eval, At, StoreTerm, CanonTerm, SymStore, CanonBits;
    var (r, addr) := Locate(p);
    if val.SPtr? && size == 8 {
      PointerStored(canon, m, m', env, r, addr, val);
    } else if val.SPtr? {
      CanonValue(canon, val.r, val.off, env);
      DataStored(canon, m, m', env, r, addr, CanonTerm(canon, val.r, val.off), size);
    } else {
      DataStored(canon, m, m', env, r, addr, val.t, size);
    }
  }

  /** A store the executor accepts does what the machine's store does, whatever it overlaps. */
  lemma StoreAgrees(canon: Region -> u64, solver: Solver, m: SMem, c: CMem, env: Env,
                    p: SVal, q: CVal, size: nat, val: SVal, w: CVal)
    requires 1 <= size <= 8 && solver.Sound() && MemRel(canon, m, c, env)
    requires ValRel(p, q, env) && ValRel(val, w, env)
    requires SymStore(canon, solver, m, p, size, val).Ok?
    ensures var c' := MachineStore(canon, c, q, size, w);
            c'.Fault? || (c'.Fine? && MemRel(canon, SymStore(canon, solver, m, p, size, val).value, c'.value, env))
  {
    var (r, addr) := Locate(p);
    var a := Eval(addr, env);
    StoredMemory(canon, solver, m, env, p, val, size);
    hide At, Eval, SymStore, MemRel, Overwrite, CellsOf, SpelledOut, Stored;
    if !q.Undef? && !w.Undef? && a + size <= TWO64 {
      MemRelAt(canon, m, c, env, r);
      StoreStored(canon, solver, m, env, p, val, size);
      OverwriteAgrees(canon, m, SymStore(canon, solver, m, p, size, val).value, c, env, r, a, CellsOf(canon, w, size));
    }
  }

  lemma MemRelAt(canon: Region -> u64, m: SMem, c: CMem, env: Env, r: Region)
    ensures MemRel(canon, m, c, env) ==>
              && ShadowOk(m.ShadowOf(r)) && SpelledOut(canon, m, env, r)
              && forall x: u64 :: CellRel(r, CellAt(c, env, r, x), ViewAt(m, env, r, x))
  {
  }

  lemma InitialMemory(canon: Region -> u64, env: Env)
    ensures MemRel(canon, SMem(map[], map[]), map[], env)
  {
  }
}
