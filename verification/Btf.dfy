/** The type graph both sides of a relocation are read from: BTF records by id, with modifiers skipped. */
module Btf {
  import opened Words

  datatype Kind =
    | KVoid | KInt | KPtr | KArray | KStruct | KUnion | KEnum | KFwd | KTypedef | KVolatile | KConst
    | KRestrict | KFunc | KFuncProto | KVar | KDatasec | KFloat | KDeclTag | KTypeTag | KEnum64
  {
    predicate Modifier() { KTypedef? || KVolatile? || KConst? || KRestrict? || KTypeTag? }
    predicate Composite() { KStruct? || KUnion? }
    predicate AnyEnum() { KEnum? || KEnum64? }
    /** Kinds whose record carries a byte size. */
    predicate Sized() { KInt? || Composite() || AnyEnum() || KFloat? || KDatasec? }
  }

  datatype Member = Member(name: string, typ: nat, bitOffset: nat, bitfieldSize: nat)

  /** One record; fields its kind does not use are empty. The result of a prototype is in typ. */
  datatype BtfType = BtfType(
    id: nat, kind: Kind, name: string, kflag: bool, size: nat, typ: nat, members: seq<Member>,
    enums: seq<(string, int)>, elem: nat, nelems: nat, signed: bool, params: seq<nat>)

  const VOID := BtfType(0, KVoid, "", false, 0, 0, [], [], 0, 0, false, [])

  /** Records by id. Id 0 is void. */
  type TypeMap = map<nat, BtfType>

  const MAX_RESOLVE: nat := 64

  function Lookup(b: TypeMap, tid: nat): (t: Option<BtfType>) {
    if tid == 0 then Some(VOID) else if tid in b then Some(b[tid]) else None
  }

  function ResolveWithin(b: TypeMap, tid: nat, n: nat): (t: BtfType)
    ensures !t.kind.Modifier()
    decreases n
  {
    if n == 0 then VOID
    else match Lookup(b, tid)
      case None => VOID
      case Some(t) => if !t.kind.Modifier() then t else ResolveWithin(b, t.typ, n - 1)
  }

  /** The type behind any typedefs and qualifiers; void if there is none within the bound. */
  function Resolve(b: TypeMap, tid: nat): (t: BtfType)
    ensures !t.kind.Modifier()
  {
    ResolveWithin(b, tid, MAX_RESOLVE)
  }

  method ResolveLoop(b: TypeMap, tid: nat) returns (t: BtfType)
    ensures t == Resolve(b, tid)
  {
    var cur := tid;
    for i := 0 to MAX_RESOLVE
      invariant ResolveWithin(b, cur, MAX_RESOLVE - i) == Resolve(b, tid)
    {
      var r := Lookup(b, cur);
      if r.None? { return VOID; }
      if !r.value.kind.Modifier() { return r.value; }
      cur := r.value.typ;
    }
    return VOID;
  }

  /** The record with that id is a typedef or qualifier of the next. */
  predicate Qualifies(b: TypeMap, tid: nat, next: nat) {
    && tid != 0 && tid in b && b[tid].typ == next
    && b[tid].kind in {KTypedef, KVolatile, KConst, KRestrict, KTypeTag}
  }

  /** The record with that id is t, no typedef or qualifier; an unknown id stands for void. */
  predicate Ends(b: TypeMap, tid: nat, t: BtfType) {
    if tid == 0 || tid !in b then t == VOID
    else t == b[tid] && t.kind !in {KTypedef, KVolatile, KConst, KRestrict, KTypeTag}
  }

  lemma {:induction false} ChainWithin(b: TypeMap, tid: nat, n: nat) returns (ids: seq<nat>)
    ensures 1 <= |ids| <= n + 1 && ids[0] == tid
    ensures forall i :: 0 <= i < |ids| - 1 ==> Qualifies(b, ids[i], ids[i + 1])
    ensures if |ids| <= n then Ends(b, ids[|ids| - 1], ResolveWithin(b, tid, n)) else ResolveWithin(b, tid, n) == VOID
    decreases n
  {
    ids := [tid];
    if n > 0 && tid != 0 && tid in b && b[tid].kind.Modifier() {
      var rest := ChainWithin(b, b[tid].typ, n - 1);
      ids := ids + rest;
      forall i | 0 <= i < |ids| - 1
        ensures Qualifies(b, ids[i], ids[i + 1])
      {
        if i > 0 { assert Qualifies(b, rest[i - 1], rest[i]); }
      }
    }
  }

  /** The resolved type is where the chain of typedefs and qualifiers ends, if it does so within 64 records,
      and void otherwise. */
  lemma ResolveFollows(b: TypeMap, tid: nat) returns (ids: seq<nat>)
    ensures 1 <= |ids| <= 65 && ids[0] == tid
    ensures forall i :: 0 <= i < |ids| - 1 ==> Qualifies(b, ids[i], ids[i + 1])
    ensures if |ids| <= 64 then Ends(b, ids[|ids| - 1], Resolve(b, tid)) else Resolve(b, tid) == VOID
  {
    ids := ChainWithin(b, tid, MAX_RESOLVE);
  }

  /** Position of the first flavour separator, three underscores, from i on. */
  function FlavourAt(name: string, i: nat): (p: nat)
    requires i <= |name|
    ensures i <= p <= |name|
    decreases |name| - i
  {
    if i + 3 > |name| then |name|
    else if name[i..i + 3] == "___" then i
    else FlavourAt(name, i + 1)
  }

  /** The name without its flavour. */
  function EssentialName(name: string): (e: string) {
    name[..FlavourAt(name, 0)]
  }
}
