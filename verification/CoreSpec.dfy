/** Field access specs: parsing one against the local types, and matching it member by member, through
    anonymous members, against the target types. */
module CoreSpec {
  import opened Words
  import opened Btf

  const MAX_COMPAT: nat := 32

  datatype Accessor = Accessor(idx: nat, name: Option<string>, typ: nat)

  /** What a spec holds: the steps taken and the bit distance they add up to. */
  datatype Trail = Trail(steps: seq<Accessor>, bits: nat) {
    function Plus(that: Trail): (t: Trail) { Trail(steps + that.steps, bits + that.bits) }
  }

  // ----- types by value -----

  /** No type contains itself by value: whatever lies inside a type ranks below it. */
  ghost predicate Inside(t: BtfType, r: nat, rank: nat -> nat) {
    && (t.kind == KArray ==> rank(t.elem) < r)
    && (t.kind.Composite() ==> forall i :: 0 <= i < |t.members| ==> rank(t.members[i].typ) < r)
  }

  ghost predicate Layered(b: TypeMap, rank: nat -> nat) {
    forall tid: nat :: Inside(Resolve(b, tid), rank(tid), rank)
  }

  /** Byte size of a type, if it has one. */
  function TypeSize(b: TypeMap, tid: nat, ghost rank: nat -> nat): (n: Option<nat>)
    requires Layered(b, rank)
    decreases rank(tid)
  {
    var t := Resolve(b, tid);
    if t.kind.Sized() then Some(t.size)
    else if t.kind == KPtr then Some(8)
    else if t.kind == KArray then
      assert Inside(t, rank(tid), rank);
      var es := TypeSize(b, t.elem, rank);
      if es.None? then None else Some(es.value * t.nelems)
    else None
  }

  // ----- leaf compatibility -----

  predicate NamesAllow(ln: string, tn: string) {
    ln == "" || tn == "" || EssentialName(ln) == EssentialName(tn)
  }

  function FieldsCompat(lb: TypeMap, lid: nat, tb: TypeMap, tid: nat, n: nat): (ok: bool)
    decreases n
  {
    if n == 0 then false
    else
      var lt, tt := Resolve(lb, lid), Resolve(tb, tid);
      if lt.kind.Composite() && tt.kind.Composite() then true
      else if lt.kind != tt.kind then lt.kind.AnyEnum() && tt.kind.AnyEnum() && NamesAllow(lt.name, tt.name)
      else match lt.kind
        case KPtr => true
        case KInt => true
        case KFloat => true
        case KEnum => NamesAllow(lt.name, tt.name)
        case KEnum64 => NamesAllow(lt.name, tt.name)
        case KFwd => NamesAllow(lt.name, tt.name)
        case KArray => FieldsCompat(lb, lt.elem, tb, tt.elem, n - 1)
        case _ => false
  }

  method FieldsAreCompat(lb: TypeMap, lid: nat, tb: TypeMap, tid: nat) returns (ok: bool)
    ensures ok == FieldsCompat(lb, lid, tb, tid, MAX_COMPAT)
  {
    hide Resolve, NamesAllow;
    var l, t := lid, tid;
    for i := 0 to MAX_COMPAT
      invariant FieldsCompat(lb, l, tb, t, MAX_COMPAT - i) == FieldsCompat(lb, lid, tb, tid, MAX_COMPAT)
    {
      var lt, tt := Resolve(lb, l), Resolve(tb, t);
      if lt.kind.Composite() && tt.kind.Composite() { return true; }
      if lt.kind != tt.kind {
        if lt.kind.AnyEnum() && tt.kind.AnyEnum() { return NamesAllow(lt.name, tt.name); }
        return false;
      }
      if lt.kind == KPtr || lt.kind == KInt || lt.kind == KFloat { return true; }
      if lt.kind.AnyEnum() || lt.kind == KFwd { return NamesAllow(lt.name, tt.name); }
      if lt.kind != KArray { return false; }
      l, t := lt.elem, tt.elem;
    }
    return false;
  }

  /** Types a field can have: after at most the bounded number of array levels, a scalar, pointer,
      enum, composite or forward declaration. */
  predicate Fieldable(b: TypeMap, tid: nat, n: nat)
    decreases n
  {
    n > 0 &&
    var t := Resolve(b, tid);
    if t.kind == KArray then Fieldable(b, t.elem, n - 1)
    else t.kind.Composite() || t.kind.AnyEnum() || t.kind in {KPtr, KInt, KFloat, KFwd}
  }

  lemma {:induction false} CompatWithItself(b: TypeMap, tid: nat, n: nat)
    ensures FieldsCompat(b, tid, b, tid, n) <==> Fieldable(b, tid, n)
    decreases n
  {
    hide Resolve, EssentialName;
    if n > 0 && Resolve(b, tid).kind == KArray { CompatWithItself(b, Resolve(b, tid).elem, n - 1); }
  }

  /** The type that many array levels down. */
  function ElementOf(b: TypeMap, tid: nat, k: nat): (e: nat)
    decreases k
  {
    if k == 0 then tid else ElementOf(b, Resolve(b, tid).elem, k - 1)
  }

  predicate ArrayLevels(b: TypeMap, tid: nat, k: nat)
    decreases k
  {
    k == 0 || (Resolve(b, tid).kind == KArray && ArrayLevels(b, Resolve(b, tid).elem, k - 1))
  }

  /** Kinds that go together at a leaf: any two composites; pointers, integers and floats among themselves;
      enums of either width, and forward declarations, unless both have names that differ. */
  predicate LeavesAllow(lt: BtfType, tt: BtfType) {
    || (lt.kind in {KStruct, KUnion} && tt.kind in {KStruct, KUnion})
    || (lt.kind == tt.kind && lt.kind in {KPtr, KInt, KFloat})
    || (&& ((lt.kind in {KEnum, KEnum64} && tt.kind in {KEnum, KEnum64}) || (lt.kind == KFwd && tt.kind == KFwd))
        && (lt.name == "" || tt.name == "" || EssentialName(lt.name) == EssentialName(tt.name)))
  }

  ghost predicate MeetAt(lb: TypeMap, lid: nat, tb: TypeMap, tid: nat, k: nat) {
    && ArrayLevels(lb, lid, k) && ArrayLevels(tb, tid, k)
    && LeavesAllow(Resolve(lb, ElementOf(lb, lid, k)), Resolve(tb, ElementOf(tb, tid, k)))
  }

  /** Two field types are compatible exactly when, under equally many array levels, fewer than the bound,
      both sides, their leaves go together. */
  lemma {:induction false} CompatIff(lb: TypeMap, lid: nat, tb: TypeMap, tid: nat, n: nat)
    ensures FieldsCompat(lb, lid, tb, tid, n) <==> exists k :: 0 <= k < n && MeetAt(lb, lid, tb, tid, k)
    decreases n
  {
    hide Resolve, EssentialName;
    if n > 0 {
      var lt, tt := Resolve(lb, lid), Resolve(tb, tid);
      assert MeetAt(lb, lid, tb, tid, 0) <==> LeavesAllow(lt, tt);
      if lt.kind == KArray && tt.kind == KArray {
        CompatIff(lb, lt.elem, tb, tt.elem, n - 1);
        forall k: nat
          ensures MeetAt(lb, lid, tb, tid, k + 1) <==> MeetAt(lb, lt.elem, tb, tt.elem, k)
        {
        }
        if k :| 0 <= k < n && MeetAt(lb, lid, tb, tid, k) { assert MeetAt(lb, lt.elem, tb, tt.elem, k - 1); }
        if k :| 0 <= k < n - 1 && MeetAt(lb, lt.elem, tb, tt.elem, k) { assert MeetAt(lb, lid, tb, tid, k + 1); }
      }
    }
  }

  /** Product of the lengths of that many array levels. */
  function Elements(b: TypeMap, tid: nat, k: nat): (n: nat)
    decreases k
  {
    if k == 0 then 1 else Elements(b, Resolve(b, tid).elem, k - 1) * Resolve(b, tid).nelems
  }

  lemma Associate(x: nat, y: nat, z: nat)
    ensures x * y * z == x * (y * z)
  {
  }

  /** The size of a type is that of the leaf under its array levels, times their lengths: a record's own size,
      eight bytes for a pointer, none for what has no size. */
  lemma {:induction false} SizeIs(b: TypeMap, tid: nat, rank: nat -> nat) returns (k: nat)
    requires Layered(b, rank)
    ensures ArrayLevels(b, tid, k)
    ensures var leaf := Resolve(b, ElementOf(b, tid, k));
            && leaf.kind != KArray
            && TypeSize(b, tid, rank) ==
               if leaf.kind in {KInt, KStruct, KUnion, KEnum, KEnum64, KFloat, KDatasec}
               then Some(leaf.size * Elements(b, tid, k))
               else if leaf.kind == KPtr then Some(8 * Elements(b, tid, k))
               else None
    decreases rank(tid)
  {
    hide Resolve;
    k := 0;
    var t := Resolve(b, tid);
    if t.kind == KArray {
      assert Inside(t, rank(tid), rank);
      k := SizeIs(b, t.elem, rank);
      var n := Elements(b, t.elem, k);
      Associate(Resolve(b, ElementOf(b, t.elem, k)).size, n, t.nelems);
      Associate(8, n, t.nelems);
      k := k + 1;
    }
  }

  // ----- finding a member -----

  /** A member found: its index in its own composite, its type, and its bit distance from the start. */
  datatype Hit = Hit(idx: nat, typ: nat, bits: nat)

  function FindFrom(lb: TypeMap, name: string, ltyp: nat, tb: TypeMap, tid: nat, i: nat,
                    ghost rank: nat -> nat): (h: Option<Hit>)
    requires Layered(tb, rank) && Resolve(tb, tid).kind.Composite() && i <= |Resolve(tb, tid).members|
    decreases rank(tid), |Resolve(tb, tid).members| - i
  {
    var t := Resolve(tb, tid);
    if i == |t.members| then None
    else
      var m := t.members[i];
      if m.name == "" then
        assert Inside(t, rank(tid), rank);
        var h := FindMember(lb, name, ltyp, tb, m.typ, rank);
        if h.Some? then Some(Hit(h.value.idx, h.value.typ, m.bitOffset + h.value.bits))
        else FindFrom(lb, name, ltyp, tb, tid, i + 1, rank)
      else if m.name == name then
        if FieldsCompat(lb, ltyp, tb, m.typ, MAX_COMPAT) then Some(Hit(i, m.typ, m.bitOffset)) else None
      else FindFrom(lb, name, ltyp, tb, tid, i + 1, rank)
  }

  function FindMember(lb: TypeMap, name: string, ltyp: nat, tb: TypeMap, tid: nat,
                      ghost rank: nat -> nat): (h: Option<Hit>)
    requires Layered(tb, rank)
    decreases rank(tid)
  {
    if Resolve(tb, tid).kind.Composite() then FindFrom(lb, name, ltyp, tb, tid, 0, rank) else None
  }

  /** A spec under construction. */
  class Spec {
    const root: nat
    var accessors: seq<Accessor>
    var bitOffset: nat

    constructor (root: nat)
      ensures this.root == root && Contents() == Trail([], 0)
    {
      this.root, accessors, bitOffset := root, [], 0;
    }

    ghost function Contents(): (t: Trail)
      reads this
    {
      Trail(accessors, bitOffset)
    }
  }

  /** Searches a target composite for a member, descending into anonymous ones. A failed search leaves
      the spec as it was; a successful one adds one step and the whole distance. */
  method MatchMember(lb: TypeMap, name: string, ltyp: nat, tb: TypeMap, tid: nat, spec: Spec, ghost rank: nat -> nat)
    returns (found: Option<nat>)
    requires Layered(tb, rank)
    modifies spec
    ensures var h := FindMember(lb, name, ltyp, tb, tid, rank);
            if h.None? then found == None && spec.Contents() == old(spec.Contents())
            else found == Some(h.value.typ) &&
                 spec.Contents() == old(spec.Contents()).Plus(Trail([Accessor(h.value.idx, Some(name), h.value.typ)],
                                                                    h.value.bits))
    decreases rank(tid)
  {
    hide FieldsCompat, Resolve;
    var t := Resolve(tb, tid);
    if !t.kind.Composite() { return None; }
    assert Inside(t, rank(tid), rank);
    for i := 0 to |t.members|
      invariant spec.Contents() == old(spec.Contents())
      invariant FindMember(lb, name, ltyp, tb, tid, rank) == FindFrom(lb, name, ltyp, tb, tid, i, rank)
    {
      var m := t.members[i];
      if m.name == "" {
        var savedLen, savedBits := |spec.accessors|, spec.bitOffset;
        spec.bitOffset := spec.bitOffset + m.bitOffset;
        found := MatchMember(lb, name, ltyp, tb, m.typ, spec, rank);
        if found.Some? { return; }
        spec.accessors := spec.accessors[..savedLen];
        spec.bitOffset := savedBits;
      } else if m.name == name {
        var ok := FieldsAreCompat(lb, ltyp, tb, m.typ);
        if !ok { return None; }
        spec.bitOffset := spec.bitOffset + m.bitOffset;
        spec.accessors := spec.accessors + [Accessor(i, Some(m.name), m.typ)];
        return Some(m.typ);
      }
    }
    return None;
  }

  // ----- where a member really is -----

  /** A named member reached by member indices, all but the last through anonymous composites. */
  datatype Leaf = Leaf(name: string, hit: Hit)

  function LeafAt(b: TypeMap, tid: nat, path: seq<nat>): (leaf: Option<Leaf>)
    decreases |path|
  {
    var t := Resolve(b, tid);
    if path == [] || !t.kind.Composite() || path[0] >= |t.members| then None
    else
      var m := t.members[path[0]];
      if |path| == 1 then
        if m.name == "" then None else Some(Leaf(m.name, Hit(path[0], m.typ, m.bitOffset)))
      else if m.name != "" then None
      else
        var rest := LeafAt(b, m.typ, path[1..]);
        if rest.None? then None
        else Some(Leaf(rest.value.name, Hit(rest.value.hit.idx, rest.value.hit.typ, m.bitOffset + rest.value.hit.bits)))
  }

  ghost predicate NamedAt(b: TypeMap, tid: nat, path: seq<nat>, name: string) {
    var leaf := LeafAt(b, tid, path);
    path != [] && leaf.Some? && leaf.value.name == name
  }

  /** At most one member of that name is reachable through anonymous composites. */
  ghost predicate UniqueName(b: TypeMap, tid: nat, name: string) {
    forall p, q :: NamedAt(b, tid, p, name) && NamedAt(b, tid, q, name) ==> p == q
  }

  /** Whatever is found lies on such a path, at exactly its distance, with a compatible type. */
  lemma {:induction false} FoundIsLeaf(lb: TypeMap, name: string, ltyp: nat, tb: TypeMap, tid: nat, i: nat,
                                       rank: nat -> nat)
    returns (path: seq<nat>)
    requires Layered(tb, rank) && Resolve(tb, tid).kind.Composite() && i <= |Resolve(tb, tid).members| && name != ""
    requires FindFrom(lb, name, ltyp, tb, tid, i, rank).Some?
    ensures var h := FindFrom(lb, name, ltyp, tb, tid, i, rank).value;
            path != [] && path[0] >= i && LeafAt(tb, tid, path) == Some(Leaf(name, h))
              && FieldsCompat(lb, ltyp, tb, h.typ, MAX_COMPAT)
    decreases rank(tid), |Resolve(tb, tid).members| - i
  {
    hide FieldsCompat, Resolve;
    var t := Resolve(tb, tid);
    assert Inside(t, rank(tid), rank);
    var m := t.members[i];
    if m.name == "" && FindMember(lb, name, ltyp, tb, m.typ, rank).Some? {
      var rest := FoundIsLeaf(lb, name, ltyp, tb, m.typ, 0, rank);
      path := [i] + rest;
      assert path[1..] == rest;
    } else if m.name == name {
      path := [i];
    } else {
      path := FoundIsLeaf(lb, name, ltyp, tb, tid, i + 1, rank);
    }
  }

  /** One step of the search. */
  lemma FindFromStep(lb: TypeMap, name: string, ltyp: nat, tb: TypeMap, tid: nat, i: nat, rank: nat -> nat)
    requires Layered(tb, rank) && Resolve(tb, tid).kind.Composite() && i < |Resolve(tb, tid).members|
    ensures var m := Resolve(tb, tid).members[i];
            var h := FindMember(lb, name, ltyp, tb, m.typ, rank);
            FindFrom(lb, name, ltyp, tb, tid, i, rank) ==
            if m.name == "" && h.Some? then Some(Hit(h.value.idx, h.value.typ, m.bitOffset + h.value.bits))
            else if m.name != "" && m.name == name then
              if FieldsCompat(lb, ltyp, tb, m.typ, MAX_COMPAT) then Some(Hit(i, m.typ, m.bitOffset)) else None
            else FindFrom(lb, name, ltyp, tb, tid, i + 1, rank)
  {
    hide Resolve, FieldsCompat, FindMember;
  }

  /** Found exactly when compatible. */
  predicate FoundIf(lb: TypeMap, ltyp: nat, tb: TypeMap, h: Hit, found: Option<Hit>) {
    found == if FieldsCompat(lb, ltyp, tb, h.typ, MAX_COMPAT) then Some(h) else None
  }

  /** Before the path's first member the search goes on. */
  lemma SearchGoesOn(lb: TypeMap, name: string, ltyp: nat, tb: TypeMap, tid: nat, i: nat, rank: nat -> nat,
                     path: seq<nat>)
    requires Layered(tb, rank) && Resolve(tb, tid).kind.Composite() && name != ""
    requires NamedAt(tb, tid, path, name) && i < path[0] < |Resolve(tb, tid).members| && UniqueName(tb, tid, name)
    ensures FindFrom(lb, name, ltyp, tb, tid, i, rank) == FindFrom(lb, name, ltyp, tb, tid, i + 1, rank)
  {
    hide Resolve, FieldsCompat, FindMember, FindFrom, UniqueName, NamedAt;
    FindFromStep(lb, name, ltyp, tb, tid, i, rank);
    NotNamedBefore(tb, tid, i, name, path);
    if Resolve(tb, tid).members[i].name == "" { NotBefore(lb, name, ltyp, tb, tid, i, rank, path); }
  }

  /** At the path's first member, given what the search below it finds. */
  lemma SearchStopsHere(lb: TypeMap, name: string, ltyp: nat, tb: TypeMap, tid: nat, rank: nat -> nat, path: seq<nat>)
    requires Layered(tb, rank) && Resolve(tb, tid).kind.Composite() && name != ""
    requires NamedAt(tb, tid, path, name) && path[0] < |Resolve(tb, tid).members| && UniqueName(tb, tid, name)
    requires |path| > 1 ==>
               && LeafAt(tb, Resolve(tb, tid).members[path[0]].typ, path[1..]).Some?
               && FoundIf(lb, ltyp, tb, LeafAt(tb, Resolve(tb, tid).members[path[0]].typ, path[1..]).value.hit,
                          FindMember(lb, name, ltyp, tb, Resolve(tb, tid).members[path[0]].typ, rank))
    ensures FoundIf(lb, ltyp, tb, LeafAt(tb, tid, path).value.hit, FindFrom(lb, name, ltyp, tb, tid, path[0], rank))
  {
    hide Resolve, FieldsCompat, FindMember, FindFrom, UniqueName;
    FindFromStep(lb, name, ltyp, tb, tid, path[0], rank);
    if |path| > 1 { NotBeyond(lb, name, ltyp, tb, tid, path[0] + 1, rank, path); }
  }

  /** Below an anonymous member the rest of the path leads to the same name, once. */
  lemma LeafBelow(b: TypeMap, tid: nat, name: string, path: seq<nat>)
    requires NamedAt(b, tid, path, name) && |path| > 1 && name != "" && UniqueName(b, tid, name)
    ensures Resolve(b, tid).kind.Composite() && path[0] < |Resolve(b, tid).members|
    ensures var below := Resolve(b, tid).members[path[0]].typ;
            NamedAt(b, below, path[1..], name) && UniqueName(b, below, name) && Resolve(b, below).kind.Composite()
  {
    hide Resolve, UniqueName;
    LeafInComposite(b, tid, path);
    UniqueBelow(b, tid, path[0], name);
    LeafInComposite(b, Resolve(b, tid).members[path[0]].typ, path[1..]);
  }

  /** A name that is reachable once, with a compatible type, is found. */
  lemma {:induction false} LeafIsFound(lb: TypeMap, name: string, ltyp: nat, tb: TypeMap, tid: nat, i: nat,
                                       rank: nat -> nat, path: seq<nat>)
    requires Layered(tb, rank) && Resolve(tb, tid).kind.Composite() && name != ""
    requires NamedAt(tb, tid, path, name) && i <= path[0] && UniqueName(tb, tid, name)
    ensures FoundIf(lb, ltyp, tb, LeafAt(tb, tid, path).value.hit, FindFrom(lb, name, ltyp, tb, tid, i, rank))
    decreases rank(tid), |Resolve(tb, tid).members| - i
  {
    hide Resolve, UniqueName, FindFrom, FoundIf, LeafAt;
    LeafInComposite(tb, tid, path);
    assert Inside(Resolve(tb, tid), rank(tid), rank);
    if i < path[0] {
      SearchGoesOn(lb, name, ltyp, tb, tid, i, rank, path);
      LeafIsFound(lb, name, ltyp, tb, tid, i + 1, rank, path);
    } else {
      if |path| > 1 {
        LeafBelow(tb, tid, name, path);
        LeafIsFound(lb, name, ltyp, tb, Resolve(tb, tid).members[i].typ, 0, rank, path[1..]);
      }
      SearchStopsHere(lb, name, ltyp, tb, tid, rank, path);
    }
  }

  lemma NotNamedBefore(b: TypeMap, tid: nat, i: nat, name: string, path: seq<nat>)
    requires Resolve(b, tid).kind.Composite() && i < |Resolve(b, tid).members| && name != ""
    requires NamedAt(b, tid, path, name) && i < path[0] && UniqueName(b, tid, name)
    ensures Resolve(b, tid).members[i].name != name
  {
    hide Resolve;
    assert Resolve(b, tid).members[i].name == name ==> NamedAt(b, tid, [i], name);
  }

  lemma LeafInComposite(b: TypeMap, tid: nat, path: seq<nat>)
    requires LeafAt(b, tid, path).Some?
    ensures path != [] && Resolve(b, tid).kind.Composite() && path[0] < |Resolve(b, tid).members|
  {
  }

  /** No anonymous member before the one of that name holds another. */
  lemma NotBefore(lb: TypeMap, name: string, ltyp: nat, tb: TypeMap, tid: nat, i: nat, rank: nat -> nat, path: seq<nat>)
    requires Layered(tb, rank) && Resolve(tb, tid).kind.Composite() && name != ""
    requires NamedAt(tb, tid, path, name) && i < path[0] && UniqueName(tb, tid, name)
    requires i < |Resolve(tb, tid).members| && Resolve(tb, tid).members[i].name == ""
    ensures FindMember(lb, name, ltyp, tb, Resolve(tb, tid).members[i].typ, rank) == None
  {
    hide Resolve, FindMember;
    FoundBelow(lb, name, ltyp, tb, tid, i, rank);
  }

  lemma FoundBelow(lb: TypeMap, name: string, ltyp: nat, tb: TypeMap, tid: nat, i: nat, rank: nat -> nat)
    requires Layered(tb, rank) && Resolve(tb, tid).kind.Composite() && name != ""
    requires i < |Resolve(tb, tid).members| && Resolve(tb, tid).members[i].name == ""
    ensures FindMember(lb, name, ltyp, tb, Resolve(tb, tid).members[i].typ, rank).Some? ==>
              exists p :: NamedAt(tb, tid, p, name) && p[0] == i
  {
    hide FieldsCompat, Resolve, FindFrom;
    var below := Resolve(tb, tid).members[i].typ;
    if FindMember(lb, name, ltyp, tb, below, rank).Some? {
      var rest := FoundIsLeaf(lb, name, ltyp, tb, below, 0, rank);
      assert ([i] + rest)[1..] == rest;
      assert NamedAt(tb, tid, [i] + rest, name);
    }
  }

  lemma FoundFrom(lb: TypeMap, name: string, ltyp: nat, tb: TypeMap, tid: nat, i: nat, rank: nat -> nat)
    requires Layered(tb, rank) && Resolve(tb, tid).kind.Composite() && name != "" && i <= |Resolve(tb, tid).members|
    ensures FindFrom(lb, name, ltyp, tb, tid, i, rank).Some? ==> exists p :: NamedAt(tb, tid, p, name) && p[0] >= i
  {
    hide FieldsCompat, Resolve, FindFrom;
    if FindFrom(lb, name, ltyp, tb, tid, i, rank).Some? {
      var other := FoundIsLeaf(lb, name, ltyp, tb, tid, i, rank);
      assert NamedAt(tb, tid, other, name);
    }
  }

  lemma UniqueBelow(b: TypeMap, tid: nat, i: nat, name: string)
    requires UniqueName(b, tid, name) && Resolve(b, tid).kind.Composite() && i < |Resolve(b, tid).members|
    requires Resolve(b, tid).members[i].name == "" && name != ""
    ensures UniqueName(b, Resolve(b, tid).members[i].typ, name)
  {
    hide Resolve;
    var below := Resolve(b, tid).members[i].typ;
    forall p, q | NamedAt(b, below, p, name) && NamedAt(b, below, q, name)
      ensures p == q
    {
      assert ([i] + p)[1..] == p && ([i] + q)[1..] == q;
      assert NamedAt(b, tid, [i] + p, name) && NamedAt(b, tid, [i] + q, name);
    }
  }

  /** Past the one member of that name there is no other. */
  lemma NotBeyond(lb: TypeMap, name: string, ltyp: nat, tb: TypeMap, tid: nat, i: nat, rank: nat -> nat, path: seq<nat>)
    requires Layered(tb, rank) && Resolve(tb, tid).kind.Composite() && name != "" && i <= |Resolve(tb, tid).members|
    requires NamedAt(tb, tid, path, name) && path[0] < i && UniqueName(tb, tid, name)
    ensures FindFrom(lb, name, ltyp, tb, tid, i, rank) == None
  {
    hide Resolve, FindFrom;
    FoundFrom(lb, name, ltyp, tb, tid, i, rank);
  }

  // ----- parsing and matching -----

  datatype ReloClass = TypeRelo | EnumRelo | FieldRelo

  /** A step with the bits it adds. */
  datatype Step = Step(acc: Accessor, bits: nat)

  /** Bit distance of element idx in an array of size-byte elements. */
  function ElementBits(idx: nat, size: nat): (n: nat) { idx * size * 8 }

  function ParseStep(b: TypeMap, tid: nat, idx: nat, ghost rank: nat -> nat): (s: Option<Step>)
    requires Layered(b, rank)
  {
    var t := Resolve(b, tid);
    if t.kind.Composite() then
      if idx >= |t.members| then None
      else
        var m := t.members[idx];
        Some(Step(Accessor(idx, if m.name == "" then None else Some(m.name), m.typ), m.bitOffset))
    else ElementStep(b, t, idx, rank)
  }

  /** One element of an array; a length of zero is a flexible array. */
  function ElementStep(b: TypeMap, t: BtfType, idx: nat, ghost rank: nat -> nat): (s: Option<Step>)
    requires Layered(b, rank)
  {
    if t.kind != KArray || (t.nelems != 0 && idx >= t.nelems) then None
    else
      var es := TypeSize(b, t.elem, rank);
      if es.None? then None else Some(Step(Accessor(idx, None, t.elem), ElementBits(idx, es.value)))
  }

  function MatchStep(lb: TypeMap, acc: Accessor, tb: TypeMap, tid: nat, ghost rank: nat -> nat): (s: Option<Step>)
    requires Layered(tb, rank)
  {
    if acc.name.Some? then
      var h := FindMember(lb, acc.name.value, acc.typ, tb, tid, rank);
      if h.None? then None else Some(Step(Accessor(h.value.idx, acc.name, h.value.typ), h.value.bits))
    else
      var t := Resolve(tb, tid);
      if t.kind.Composite() then
        if acc.idx < |t.members| && FieldsCompat(lb, acc.typ, tb, t.members[acc.idx].typ, MAX_COMPAT)
        then Some(Step(Accessor(acc.idx, None, t.members[acc.idx].typ), t.members[acc.idx].bitOffset))
        else None
      else ElementStep(tb, t, acc.idx, rank)
  }

  function Prepend(s: Step, rest: Option<Trail>): (t: Option<Trail>) {
    if rest.None? then None else Some(Trail([s.acc], s.bits).Plus(rest.value))
  }

  function ParseTail(b: TypeMap, tid: nat, idxs: seq<nat>, ghost rank: nat -> nat): (t: Option<Trail>)
    requires Layered(b, rank)
    decreases |idxs|
  {
    if idxs == [] then Some(Trail([], 0))
    else
      var s := ParseStep(b, tid, idxs[0], rank);
      if s.None? then None else Prepend(s.value, ParseTail(b, s.value.acc.typ, idxs[1..], rank))
  }

  function MatchTail(lb: TypeMap, accs: seq<Accessor>, tb: TypeMap, tid: nat,
                     ghost rank: nat -> nat): (t: Option<Trail>)
    requires Layered(tb, rank)
    decreases |accs|
  {
    if accs == [] then Some(Trail([], 0))
    else
      var s := MatchStep(lb, accs[0], tb, tid, rank);
      if s.None? then None else Prepend(s.value, MatchTail(lb, accs[1..], tb, s.value.acc.typ, rank))
  }

  /** The root step: an index into an array of the root type. */
  function RootStep(b: TypeMap, root: nat, idx: nat, ghost rank: nat -> nat): (s: Option<Step>)
    requires Layered(b, rank)
  {
    var sz := TypeSize(b, root, rank);
    if sz.None? then None else Some(Step(Accessor(idx, None, root), ElementBits(idx, sz.value)))
  }

  function Parse(b: TypeMap, root: nat, idxs: seq<nat>, cls: ReloClass, ghost rank: nat -> nat): (t: Option<Trail>)
    requires Layered(b, rank) && idxs != []
  {
    match cls
    case TypeRelo => if idxs == [0] then Some(Trail([], 0)) else None
    case EnumRelo =>
      var t := Resolve(b, root);
      if |idxs| != 1 || !t.kind.AnyEnum() || idxs[0] >= |t.enums| then None
      else Some(Trail([Accessor(idxs[0], Some(t.enums[idxs[0]].0), t.id)], 0))
    case FieldRelo =>
      var s := RootStep(b, root, idxs[0], rank);
      if s.None? then None else Prepend(s.value, ParseTail(b, root, idxs[1..], rank))
  }

  /** The elements of an array, and the places a root index selects, lie one element size apart, in bits, from
      zero on; a fixed length bounds the index. */
  lemma ElementsAreSpaced(b: TypeMap, tid: nat, i: nat, rest: seq<nat>, rank: nat -> nat)
    requires Layered(b, rank)
    ensures var t := Resolve(b, tid);
            t.kind == KArray ==>
              var path, tail := ParseTail(b, tid, [i] + rest, rank), ParseTail(b, t.elem, rest, rank);
              var size := TypeSize(b, t.elem, rank);
              && (path.Some? <==> tail.Some? && size.Some? && (t.nelems == 0 || i < t.nelems))
              && (path.Some? ==> path.value.bits == 8 * (i * size.value) + tail.value.bits)
    ensures var path, tail := Parse(b, tid, [i] + rest, FieldRelo, rank), ParseTail(b, tid, rest, rank);
            var size := TypeSize(b, tid, rank);
            && (path.Some? <==> tail.Some? && size.Some?)
            && (path.Some? ==> path.value.bits == 8 * (i * size.value) + tail.value.bits)
  {
    hide Resolve, TypeSize;
    assert ([i] + rest)[1..] == rest;
  }

  /** A type access is the single index 0; an enumerator access a single index into an enum; a step into a
      composite adds its member's bit offset, and no step leads into anything but a composite or an array. */
  lemma ParseIs(b: TypeMap, tid: nat, i: nat, rest: seq<nat>, rank: nat -> nat)
    requires Layered(b, rank)
    ensures var t, idxs := Resolve(b, tid), [i] + rest;
            && Parse(b, tid, idxs, TypeRelo, rank) == (if i == 0 && rest == [] then Some(Trail([], 0)) else None)
            && var e := Parse(b, tid, idxs, EnumRelo, rank);
               && (e.Some? <==> rest == [] && t.kind in {KEnum, KEnum64} && i < |t.enums|)
               && (e.Some? ==> e.value == Trail([Accessor(i, Some(t.enums[i].0), t.id)], 0))
    ensures var t, path := Resolve(b, tid), ParseTail(b, tid, [i] + rest, rank);
            && (path.Some? ==> t.kind in {KStruct, KUnion, KArray})
            && (t.kind in {KStruct, KUnion} ==>
                  && (path.Some? <==> i < |t.members| && ParseTail(b, t.members[i].typ, rest, rank).Some?)
                  && (path.Some? ==>
                        path.value.bits == t.members[i].bitOffset
                                           + ParseTail(b, t.members[i].typ, rest, rank).value.bits))
  {
    hide Resolve, TypeSize;
    var idxs := [i] + rest;
    assert idxs[1..] == rest;
    if i == 0 && rest == [] { assert idxs == [0]; }
  }

  /** A step by index on the target: into a composite, to a member of a compatible type; into an array, within a
      fixed length; into nothing else. */
  lemma IndexStepIs(lb: TypeMap, acc: Accessor, tb: TypeMap, tid: nat, rank: nat -> nat)
    requires Layered(tb, rank) && acc.name.None?
    ensures var t, s := Resolve(tb, tid), MatchStep(lb, acc, tb, tid, rank);
            && (s.Some? ==> t.kind in {KStruct, KUnion, KArray} && s.value.acc.idx == acc.idx)
            && (t.kind in {KStruct, KUnion} ==>
                  && (s.Some? <==> acc.idx < |t.members| && FieldsCompat(lb, acc.typ, tb, t.members[acc.idx].typ, 32))
                  && (s.Some? ==> s.value.bits == t.members[acc.idx].bitOffset
                                  && s.value.acc.typ == t.members[acc.idx].typ))
            && (t.kind == KArray ==>
                  var size := TypeSize(tb, t.elem, rank);
                  && (s.Some? <==> (t.nelems == 0 || acc.idx < t.nelems) && size.Some?)
                  && (s.Some? ==> s.value.bits == 8 * (acc.idx * size.value) && s.value.acc.typ == t.elem))
  {
    hide Resolve, TypeSize, FieldsCompat, FindMember;
  }

  /** First enumerator with the essential name. */
  function EnumeratorFrom(t: BtfType, want: string, i: nat): (j: Option<nat>)
    requires i <= |t.enums|
    ensures j.Some? ==> i <= j.value < |t.enums| && EssentialName(t.enums[j.value].0) == want
    ensures forall k :: i <= k < (if j.Some? then j.value else |t.enums|) ==> EssentialName(t.enums[k].0) != want
    decreases |t.enums| - i
  {
    if i == |t.enums| then None
    else if EssentialName(t.enums[i].0) == want then Some(i)
    else EnumeratorFrom(t, want, i + 1)
  }

  function MatchTrail(lb: TypeMap, lroot: nat, lsteps: seq<Accessor>, tb: TypeMap, troot: nat,
                      ghost rank: nat -> nat): (t: Option<Trail>)
    requires Layered(tb, rank) && lsteps != [] && (Resolve(lb, lroot).kind.AnyEnum() ==> lsteps[0].name.Some?)
  {
    var tt := Resolve(tb, troot);
    if Resolve(lb, lroot).kind.AnyEnum() then
      if !tt.kind.AnyEnum() then None
      else
        var j := EnumeratorFrom(tt, EssentialName(lsteps[0].name.value), 0);
        if j.None? then None else Some(Trail([Accessor(j.value, Some(tt.enums[j.value].0), tt.id)], 0))
    else
      var s := RootStep(tb, troot, lsteps[0].idx, rank);
      if s.None? then None else Prepend(s.value, MatchTail(lb, lsteps[1..], tb, troot, rank))
  }

  /** An enumerator is matched to the first one of the target enum with its essential name, if there is one. */
  lemma EnumTargetIs(lb: TypeMap, lroot: nat, lsteps: seq<Accessor>, tb: TypeMap, troot: nat, rank: nat -> nat)
    requires Layered(tb, rank) && lsteps != [] && Resolve(lb, lroot).kind in {KEnum, KEnum64} && lsteps[0].name.Some?
    ensures var tt, want := Resolve(tb, troot), EssentialName(lsteps[0].name.value);
            var r := MatchTrail(lb, lroot, lsteps, tb, troot, rank);
            && (r.Some? <==> tt.kind in {KEnum, KEnum64} && exists e :: e in tt.enums && EssentialName(e.0) == want)
            && (r.Some? ==>
                  && |r.value.steps| == 1 && r.value.bits == 0
                  && var j := r.value.steps[0].idx;
                     && j < |tt.enums| && r.value.steps[0] == Accessor(j, Some(tt.enums[j].0), tt.id)
                     && EssentialName(tt.enums[j].0) == want
                     && forall k :: 0 <= k < j ==> EssentialName(tt.enums[k].0) != want)
  {
    hide Resolve, EssentialName, MatchTail, RootStep;
    var tt, want := Resolve(tb, troot), EssentialName(lsteps[0].name.value);
    var j := EnumeratorFrom(tt, want, 0);
    hide EnumeratorFrom;
    if j.Some? { assert tt.enums[j.value] in tt.enums; }
    if e :| e in tt.enums && EssentialName(e.0) == want {
      var k :| 0 <= k < |tt.enums| && tt.enums[k] == e;
      assert EssentialName(tt.enums[k].0) == want;
    }
  }

  /** Builds the local spec, step by step. */
  method ParseSpec(b: TypeMap, root: nat, idxs: seq<nat>, cls: ReloClass, ghost rank: nat -> nat)
      returns (r: Option<Spec>)
    requires Layered(b, rank) && idxs != []
    ensures var want := Parse(b, root, idxs, cls, rank);
            if want.None? then r.None?
            else r.Some? && fresh(r.value) && r.value.root == root && r.value.Contents() == want.value
  {
    hide Resolve, TypeSize, ElementBits, Joined, Layered, ParseStep;
    var spec := new Spec(root);
    if cls == TypeRelo { return if idxs == [0] then Some(spec) else None; }
    var t := Resolve(b, root);
    if cls == EnumRelo {
      if |idxs| != 1 || !t.kind.AnyEnum() || idxs[0] >= |t.enums| { return None; }
      spec.accessors := spec.accessors + [Accessor(idxs[0], Some(t.enums[idxs[0]].0), t.id)];
      return Some(spec);
    }
    var sz := TypeSize(b, root, rank);
    if sz.None? { return None; }
    spec.bitOffset := ElementBits(idxs[0], sz.value);
    spec.accessors := spec.accessors + [Accessor(idxs[0], None, root)];
    assert spec.Contents() == Trail([Accessor(idxs[0], None, root)], ElementBits(idxs[0], sz.value));
    var cur, rest := root, idxs[1..];
    ghost var whole := Parse(b, root, idxs, cls, rank);
    JoinRoot(Step(Accessor(idxs[0], None, root), ElementBits(idxs[0], sz.value)), ParseTail(b, root, idxs[1..], rank));
    while rest != []
      invariant whole == Joined(spec.Contents(), ParseTail(b, cur, rest, rank))
      decreases |rest|
    {
      var s := ParseStep(b, cur, rest[0], rank);
      if s.None? {
        JoinNone(spec.Contents());
        return None;
      }
      JoinStep(spec.Contents(), s.value, ParseTail(b, s.value.acc.typ, rest[1..], rank));
      spec.bitOffset := spec.bitOffset + s.value.bits;
      spec.accessors := spec.accessors + [s.value.acc];
      cur, rest := s.value.acc.typ, rest[1..];
    }
    JoinEnd(spec.Contents());
    return Some(spec);
  }

  function Joined(done: Trail, rest: Option<Trail>): (t: Option<Trail>) {
    if rest.None? then None else Some(done.Plus(rest.value))
  }

  lemma JoinRoot(s: Step, rest: Option<Trail>)
    ensures Prepend(s, rest) == Joined(Trail([s.acc], s.bits), rest)
  {
  }

  lemma JoinNone(done: Trail)
    ensures Joined(done, None) == None
  {
  }

  lemma JoinEnd(done: Trail)
    ensures Joined(done, Some(Trail([], 0))) == Some(done)
  {
    assert done.steps + [] == done.steps;
  }

  lemma JoinStep(done: Trail, s: Step, rest: Option<Trail>)
    ensures Joined(done, Prepend(s, rest)) == Joined(done.Plus(Trail([s.acc], s.bits)), rest)
  {
    if rest.Some? {
      assert done.steps + ([s.acc] + rest.value.steps) == done.steps + [s.acc] + rest.value.steps;
    }
  }

  /** Builds the target spec that a local one selects, if there is one. */
  method MatchSpec(lb: TypeMap, lspec: Spec, tb: TypeMap, troot: nat, ghost rank: nat -> nat) returns (r: Option<Spec>)
    requires Layered(tb, rank) && lspec.accessors != []
             && (Resolve(lb, lspec.root).kind.AnyEnum() ==> lspec.accessors[0].name.Some?)
    ensures lspec.Contents() == old(lspec.Contents())
    ensures var want := MatchTrail(lb, lspec.root, lspec.accessors, tb, troot, rank);
            if want.None? then r.None?
            else r.Some? && fresh(r.value) && r.value.root == troot && r.value.Contents() == want.value
  {
    hide ElementBits, Resolve, TypeSize, FieldsCompat, FindMember, EnumeratorFrom, EssentialName, Joined, Layered,
         ElementStep;
    var accs := lspec.accessors;
    var spec := new Spec(troot);
    var tt := Resolve(tb, troot);
    if Resolve(lb, lspec.root).kind.AnyEnum() {
      if !tt.kind.AnyEnum() { return None; }
      var j := EnumeratorFrom(tt, EssentialName(accs[0].name.value), 0);
      if j.None? { return None; }
      spec.accessors := spec.accessors + [Accessor(j.value, Some(tt.enums[j.value].0), tt.id)];
      return Some(spec);
    }
    var sz := TypeSize(tb, troot, rank);
    if sz.None? { return None; }
    spec.bitOffset := ElementBits(accs[0].idx, sz.value);
    spec.accessors := spec.accessors + [Accessor(accs[0].idx, None, troot)];
    assert spec.Contents() == Trail([Accessor(accs[0].idx, None, troot)], ElementBits(accs[0].idx, sz.value));
    var cur, rest := troot, accs[1..];
    ghost var whole := MatchTrail(lb, lspec.root, accs, tb, troot, rank);
    JoinRoot(Step(Accessor(accs[0].idx, None, troot), ElementBits(accs[0].idx, sz.value)),
             MatchTail(lb, accs[1..], tb, troot, rank));
    while rest != []
      invariant whole == Joined(spec.Contents(), MatchTail(lb, rest, tb, cur, rank))
      decreases |rest|
    {
      var acc := rest[0];
      ghost var s := MatchStep(lb, acc, tb, cur, rank);
      ghost var before := spec.Contents();
      if acc.name.Some? {
        var found := MatchMember(lb, acc.name.value, acc.typ, tb, cur, spec, rank);
        if found.None? {
          JoinNone(before);
          return None;
        }
        cur := found.value;
      } else {
        var step := MatchStep(lb, acc, tb, cur, rank);
        if step.None? {
          JoinNone(before);
          return None;
        }
        spec.bitOffset := spec.bitOffset + step.value.bits;
        spec.accessors := spec.accessors + [step.value.acc];
        cur := step.value.acc.typ;
      }
      JoinStep(before, s.value, MatchTail(lb, rest[1..], tb, s.value.acc.typ, rank));
      rest := rest[1..];
    }
    JoinEnd(spec.Contents());
    return Some(spec);
  }

  // ----- matching a spec against its own types -----

  /** The search for the member's name finds nothing before it. */
  ghost predicate Foremost(b: TypeMap, tid: nat, idx: nat, rank: nat -> nat)
    requires Layered(b, rank) && idx < |Resolve(b, tid).members|
  {
    var ms := Resolve(b, tid).members;
    forall j :: 0 <= j < idx ==>
      ms[j].name != ms[idx].name
        && (ms[j].name == "" ==> FindMember(b, ms[idx].name, ms[idx].typ, b, ms[j].typ, rank).None?)
  }

  /** Every named step leads to a member that is the first one found. */
  ghost predicate AllForemost(b: TypeMap, tid: nat, steps: seq<Accessor>, rank: nat -> nat)
    requires Layered(b, rank)
    decreases |steps|
  {
    steps == [] ||
    (&& (steps[0].name.Some? ==> steps[0].idx < |Resolve(b, tid).members| && Foremost(b, tid, steps[0].idx, rank))
     && AllForemost(b, steps[0].typ, steps[1..], rank))
  }

  /** A name that is reachable once is the first one found. */
  lemma UniqueIsForemost(b: TypeMap, tid: nat, idx: nat, rank: nat -> nat)
    requires Layered(b, rank) && Resolve(b, tid).kind.Composite() && idx < |Resolve(b, tid).members|
    requires var name := Resolve(b, tid).members[idx].name; name != "" && UniqueName(b, tid, name)
    ensures Foremost(b, tid, idx, rank)
  {
    hide Resolve, FindMember, UniqueName;
    var ms := Resolve(b, tid).members;
    var name := ms[idx].name;
    assert NamedAt(b, tid, [idx], name);
    forall j | 0 <= j < idx
      ensures ms[j].name != name && (ms[j].name == "" ==> FindMember(b, name, ms[idx].typ, b, ms[j].typ, rank).None?)
    {
      NotNamedBefore(b, tid, j, name, [idx]);
      if ms[j].name == "" { NotBefore(b, name, ms[idx].typ, b, tid, j, rank, [idx]); }
    }
  }

  /** Before the first member found the search goes on. */
  lemma {:induction false} SearchReaches(b: TypeMap, name: string, ltyp: nat, tid: nat, i: nat, rank: nat -> nat)
    requires Layered(b, rank) && Resolve(b, tid).kind.Composite() && name != "" && i <= |Resolve(b, tid).members|
    requires var ms := Resolve(b, tid).members; forall j :: 0 <= j < i ==>
               ms[j].name != name && (ms[j].name == "" ==> FindMember(b, name, ltyp, b, ms[j].typ, rank).None?)
    ensures FindMember(b, name, ltyp, b, tid, rank) == FindFrom(b, name, ltyp, b, tid, i, rank)
    decreases i
  {
    hide Resolve, FindFrom, FieldsCompat;
    if i > 0 {
      SearchReaches(b, name, ltyp, tid, i - 1, rank);
      FindFromStep(b, name, ltyp, b, tid, i - 1, rank);
    }
  }

  /** Another member inside an earlier anonymous one, of the same index, type and distance. */
  ghost predicate Twin(b: TypeMap, tid: nat, idx: nat, j: nat, rank: nat -> nat)
    requires Layered(b, rank) && idx < |Resolve(b, tid).members|
  {
    var ms := Resolve(b, tid).members;
    var m := ms[idx];
    && j < idx && ms[j].name == ""
    && (forall k :: 0 <= k < j ==>
          ms[k].name != m.name && (ms[k].name == "" ==> FindMember(b, m.name, m.typ, b, ms[k].typ, rank).None?))
    && var h := FindMember(b, m.name, m.typ, b, ms[j].typ, rank);
       h.Some? && h.value.idx == idx && h.value.typ == m.typ && ms[j].bitOffset + h.value.bits == m.bitOffset
  }

  /** The first position at which the search for the member's name stops. */
  lemma FirstStop(b: TypeMap, tid: nat, idx: nat, rank: nat -> nat) returns (j: nat)
    requires Layered(b, rank) && idx < |Resolve(b, tid).members| && !Foremost(b, tid, idx, rank)
    ensures var ms := Resolve(b, tid).members;
            var m := ms[idx];
            && j < idx && (ms[j].name == m.name
                           || (ms[j].name == "" && FindMember(b, m.name, m.typ, b, ms[j].typ, rank).Some?))
            && forall k :: 0 <= k < j ==>
                 ms[k].name != m.name && (ms[k].name == "" ==> FindMember(b, m.name, m.typ, b, ms[k].typ, rank).None?)
  {
    hide Resolve, FindMember;
    var ms := Resolve(b, tid).members;
    var m := ms[idx];
    j := 0;
    while ms[j].name != m.name && (ms[j].name == "" ==> FindMember(b, m.name, m.typ, b, ms[j].typ, rank).None?)
      invariant 0 <= j < idx
      invariant forall k :: 0 <= k < j ==>
                  ms[k].name != m.name && (ms[k].name == "" ==> FindMember(b, m.name, m.typ, b, ms[k].typ, rank).None?)
      decreases idx - j
    {
      if j + 1 == idx { assert false; }
      j := j + 1;
    }
  }

  /** A named member matched against its own composite comes back exactly when it is the first one found
      and a field can have its type, or the first one found is a twin. */
  lemma SelfStepIff(b: TypeMap, tid: nat, idx: nat, rank: nat -> nat)
    requires Layered(b, rank) && Resolve(b, tid).kind.Composite() && idx < |Resolve(b, tid).members|
    requires Resolve(b, tid).members[idx].name != ""
    ensures var s := ParseStep(b, tid, idx, rank);
            && s.Some?
            && (MatchStep(b, s.value.acc, b, tid, rank) == s <==>
                || (Foremost(b, tid, idx, rank) && Fieldable(b, Resolve(b, tid).members[idx].typ, MAX_COMPAT))
                || exists j :: Twin(b, tid, idx, j, rank))
  {
    hide Resolve, FindFrom, FindMember, FieldsCompat, Fieldable, Foremost;
    var ms := Resolve(b, tid).members;
    var m := ms[idx];
    CompatWithItself(b, m.typ, MAX_COMPAT);
    if Foremost(b, tid, idx, rank) {
      ForemostFound(b, tid, idx, rank);
      assert forall j :: !Twin(b, tid, idx, j, rank) by { ForemostHasNoTwin(b, tid, idx, rank); }
    } else {
      var j := FirstStop(b, tid, idx, rank);
      SearchReaches(b, m.name, m.typ, tid, j, rank);
      FindFromStep(b, m.name, m.typ, b, tid, j, rank);
      var s := ParseStep(b, tid, idx, rank);
      if MatchStep(b, s.value.acc, b, tid, rank) == s {
        assert Twin(b, tid, idx, j, rank);
      }
      forall k | Twin(b, tid, idx, k, rank)
        ensures MatchStep(b, s.value.acc, b, tid, rank) == s
      {
        assert k == j;
      }
    }
  }

  lemma ForemostHasNoTwin(b: TypeMap, tid: nat, idx: nat, rank: nat -> nat)
    requires Layered(b, rank) && idx < |Resolve(b, tid).members| && Foremost(b, tid, idx, rank)
    ensures forall j :: !Twin(b, tid, idx, j, rank)
  {
    hide Resolve, FindMember;
  }

  /** The first one found is the member itself, if a field can have its type. */
  lemma ForemostFound(b: TypeMap, tid: nat, idx: nat, rank: nat -> nat)
    requires Layered(b, rank) && Resolve(b, tid).kind.Composite() && idx < |Resolve(b, tid).members|
    requires Resolve(b, tid).members[idx].name != "" && Foremost(b, tid, idx, rank)
    ensures var m := Resolve(b, tid).members[idx];
            FindMember(b, m.name, m.typ, b, tid, rank) ==
            if Fieldable(b, m.typ, MAX_COMPAT) then Some(Hit(idx, m.typ, m.bitOffset)) else None
  {
    hide Resolve, FindFrom, FindMember, FieldsCompat, Fieldable;
    var m := Resolve(b, tid).members[idx];
    CompatWithItself(b, m.typ, MAX_COMPAT);
    SearchReaches(b, m.name, m.typ, tid, idx, rank);
    FindFromStep(b, m.name, m.typ, b, tid, idx, rank);
  }

  /** Every member on the way has a type a field can have. */
  ghost predicate AllFieldable(b: TypeMap, tid: nat, steps: seq<Accessor>)
    decreases |steps|
  {
    steps == [] ||
    (&& (Resolve(b, tid).kind.Composite() ==> Fieldable(b, steps[0].typ, MAX_COMPAT))
     && AllFieldable(b, steps[0].typ, steps[1..]))
  }

  lemma SelfStep(b: TypeMap, tid: nat, idx: nat, rank: nat -> nat)
    requires Layered(b, rank) && ParseStep(b, tid, idx, rank).Some?
    requires ParseStep(b, tid, idx, rank).value.acc.name.Some? ==>
               idx < |Resolve(b, tid).members| && Foremost(b, tid, idx, rank)
    ensures var s := ParseStep(b, tid, idx, rank);
            MatchStep(b, s.value.acc, b, tid, rank) ==
            if Resolve(b, tid).kind.Composite() ==> Fieldable(b, s.value.acc.typ, MAX_COMPAT) then s else None
  {
    hide Resolve, TypeSize, FindMember, FieldsCompat, Fieldable, Foremost;
    var s := ParseStep(b, tid, idx, rank).value;
    CompatWithItself(b, s.acc.typ, MAX_COMPAT);
    if s.acc.name.Some? { ForemostFound(b, tid, idx, rank); }
  }

  lemma {:induction false} SelfTail(b: TypeMap, tid: nat, idxs: seq<nat>, rank: nat -> nat)
    requires Layered(b, rank) && ParseTail(b, tid, idxs, rank).Some?
    requires AllForemost(b, tid, ParseTail(b, tid, idxs, rank).value.steps, rank)
    ensures var t := ParseTail(b, tid, idxs, rank);
            MatchTail(b, t.value.steps, b, tid, rank) == if AllFieldable(b, tid, t.value.steps) then t else None
    decreases |idxs|
  {
    hide Resolve, ParseStep, MatchStep, Fieldable, Foremost;
    if idxs != [] {
      var s := ParseStep(b, tid, idxs[0], rank).value;
      var steps := ParseTail(b, tid, idxs, rank).value.steps;
      assert steps[1..] == ParseTail(b, s.acc.typ, idxs[1..], rank).value.steps;
      assert s.acc.idx == idxs[0] by { StepIndex(b, tid, idxs[0], rank); }
      SelfStep(b, tid, idxs[0], rank);
      SelfTail(b, s.acc.typ, idxs[1..], rank);
    }
  }

  lemma StepIndex(b: TypeMap, tid: nat, idx: nat, rank: nat -> nat)
    requires Layered(b, rank) && ParseStep(b, tid, idx, rank).Some?
    ensures ParseStep(b, tid, idx, rank).value.acc.idx == idx
  {
    hide Resolve, TypeSize;
  }

  /** A field spec whose members are all the first ones found, as they are when names are unique, matched
      against its own types comes back step for step, with the same bit offset, exactly when every member
      on the way has a type a field can have; otherwise there is no match. */
  lemma SelfMatch(b: TypeMap, root: nat, idxs: seq<nat>, rank: nat -> nat)
    requires Layered(b, rank) && idxs != [] && !Resolve(b, root).kind.AnyEnum()
    requires Parse(b, root, idxs, FieldRelo, rank).Some?
    requires var steps := Parse(b, root, idxs, FieldRelo, rank).value.steps;
             steps != [] ==> AllForemost(b, root, steps[1..], rank)
    ensures var t := Parse(b, root, idxs, FieldRelo, rank);
            && t.value.steps != []
            && MatchTrail(b, root, t.value.steps, b, root, rank) ==
               if AllFieldable(b, root, t.value.steps[1..]) then t else None
  {
    hide Resolve, ParseTail, MatchTail, AllFieldable, TypeSize, AllForemost;
    var t := Parse(b, root, idxs, FieldRelo, rank).value;
    assert t.steps[1..] == ParseTail(b, root, idxs[1..], rank).value.steps;
    SelfTail(b, root, idxs[1..], rank);
  }

  /** A structure whose member is a function, which no field can be. */
  function Odd(): (b: TypeMap) {
    map[1 := BtfType(1, KFuncProto, "", false, 0, 0, [], [], 0, 0, false, []),
        2 := BtfType(2, KStruct, "s", false, 8, 0, [Member("f", 1, 0, 0)], [], 0, 0, false, [])]
  }

  /** Ids rank types whose records refer only to earlier ones. */
  function ById(tid: nat): (r: nat) { tid }

  lemma OddIsLayered()
    ensures Layered(Odd(), ById)
  {
    forall tid: nat
      ensures Inside(Resolve(Odd(), tid), ById(tid), ById)
    {
      assert Resolve(Odd(), tid) == if tid in Odd() then Odd()[tid] else VOID;
    }
  }

  lemma OddSteps(rank: nat -> nat)
    requires Layered(Odd(), rank)
    ensures var b, acc := Odd(), Accessor(0, Some("f"), 1);
            && Resolve(b, 2).kind == KStruct && !Fieldable(b, 1, MAX_COMPAT)
            && RootStep(b, 2, 0, rank) == Some(Step(Accessor(0, None, 2), 0))
            && ParseStep(b, 2, 0, rank) == Some(Step(acc, 0))
  {
    var b := Odd();
    assert Resolve(b, 1) == b[1] && Resolve(b, 2) == b[2];
    hide Resolve;
  }

  /** Its access parses, and matches nothing, not even its own type. */
  lemma OddMemberUnmatched()
    ensures Layered(Odd(), ById)
    ensures var b := Odd();
            var t := Parse(b, 2, [0, 0], FieldRelo, ById);
            && t.Some? && t.value.steps != [] && Resolve(b, 2).kind == KStruct
            && MatchTrail(b, 2, t.value.steps, b, 2, ById) == None
  {
    hide Odd, Resolve, ParseTail, MatchTail, ParseStep, MatchStep, RootStep, AllForemost, Fieldable, Layered;
    var b, acc := Odd(), Accessor(0, Some("f"), 1);
    OddIsLayered();
    OddSteps(ById);
    OneStep(b, 2, 0, ById);
    OddIsForemost(acc, ById);
    assert [0, 0][1..] == [0];
    var t := Parse(b, 2, [0, 0], FieldRelo, ById).value;
    assert t.steps == [Accessor(0, None, 2), acc];
    assert t.steps[1..] == [acc];
    SelfMatch(b, 2, [0, 0], ById);
  }

  lemma OddIsForemost(acc: Accessor, rank: nat -> nat)
    requires Layered(Odd(), rank) && acc == Accessor(0, Some("f"), 1)
    ensures AllForemost(Odd(), 2, [acc], rank)
  {
    assert Resolve(Odd(), 2) == Odd()[2];
    hide Resolve;
    assert [acc][1..] == [];
  }

  /** An enumerator matched against its own enum comes back at its own index exactly when no earlier
      one shares its essential name. */
  lemma SelfEnumMatch(b: TypeMap, root: nat, idx: nat, rank: nat -> nat)
    requires Layered(b, rank) && Parse(b, root, [idx], EnumRelo, rank).Some?
    ensures var t, e := Parse(b, root, [idx], EnumRelo, rank), Resolve(b, root).enums;
            && idx < |e| && MatchTrail(b, root, t.value.steps, b, root, rank).Some?
            && (MatchTrail(b, root, t.value.steps, b, root, rank) == t <==>
                forall k :: 0 <= k < idx ==> EssentialName(e[k].0) != EssentialName(e[idx].0))
  {
    hide Resolve, EssentialName;
  }

  /** A composite whose anonymous member holds a second x before its own: C forbids it, the format does not. */
  function Shadowed(): (b: TypeMap) {
    map[1 := BtfType(1, KInt, "int", false, 4, 0, [], [], 0, 0, true, []),
        2 := BtfType(2, KStruct, "", false, 4, 0, [Member("x", 1, 0, 0)], [], 0, 0, false, []),
        3 := BtfType(3, KStruct, "s", false, 8, 0, [Member("", 2, 0, 0), Member("x", 1, 32, 0)], [], 0, 0, false, [])]
  }

  lemma ShadowedIsLayered()
    ensures Layered(Shadowed(), ById)
  {
    forall tid: nat
      ensures Inside(Resolve(Shadowed(), tid), ById(tid), ById)
    {
      assert Resolve(Shadowed(), tid) == if tid in Shadowed() then Shadowed()[tid] else VOID;
    }
  }

  /** Without unique names the offset can move: the second x is matched to the first. */
  lemma ShadowedNameMoves(rank: nat -> nat)
    requires Layered(Shadowed(), rank)
    ensures var b := Shadowed();
            var t := Parse(b, 3, [0, 1], FieldRelo, rank);
            && t.Some? && t.value.bits == 32 && t.value.steps != [] && Resolve(b, 3).kind == KStruct
            && MatchTrail(b, 3, t.value.steps, b, 3, rank).Some?
            && MatchTrail(b, 3, t.value.steps, b, 3, rank).value.bits == 0
  {
    hide Shadowed, Resolve, ParseTail, MatchTail, ParseStep, MatchStep, RootStep;
    var b := Shadowed();
    ShadowedSteps(rank);
    OneStep(b, 3, 1, rank);
    assert [0, 1][1..] == [1];
    var t := Parse(b, 3, [0, 1], FieldRelo, rank).value;
    assert t.steps == [Accessor(0, None, 3), Accessor(1, Some("x"), 1)];
    assert t.steps[1..] == [Accessor(1, Some("x"), 1)];
    OneMatch(b, t.steps[1], b, 3, rank);
  }

  lemma ShadowedSteps(rank: nat -> nat)
    requires Layered(Shadowed(), rank)
    ensures var b := Shadowed();
            && Resolve(b, 3).kind == KStruct
            && RootStep(b, 3, 0, rank) == Some(Step(Accessor(0, None, 3), 0))
            && ParseStep(b, 3, 1, rank) == Some(Step(Accessor(1, Some("x"), 1), 32))
            && MatchStep(b, Accessor(1, Some("x"), 1), b, 3, rank) == Some(Step(Accessor(0, Some("x"), 1), 0))
  {
    var b := Shadowed();
    assert Resolve(b, 1) == b[1] && Resolve(b, 2) == b[2] && Resolve(b, 3) == b[3];
    assert FieldsCompat(b, 1, b, 1, MAX_COMPAT);
    hide Resolve, FieldsCompat;
    assert FindMember(b, "x", 1, b, 2, rank) == Some(Hit(0, 1, 0));
    assert FindMember(b, "x", 1, b, 3, rank) == Some(Hit(0, 1, 0));
  }

  lemma OneStep(b: TypeMap, tid: nat, idx: nat, rank: nat -> nat)
    requires Layered(b, rank) && ParseStep(b, tid, idx, rank).Some?
    ensures var s := ParseStep(b, tid, idx, rank).value;
            ParseTail(b, tid, [idx], rank) == Some(Trail([s.acc], s.bits))
  {
    hide ParseStep, Resolve;
    var s := ParseStep(b, tid, idx, rank).value;
    var idxs := [idx];
    assert ParseTail(b, s.acc.typ, idxs[1..], rank) == Some(Trail([], 0));
    assert Prepend(s, Some(Trail([], 0))) == Some(Trail([s.acc], s.bits)) by { assert [s.acc] + [] == [s.acc]; }
  }

  lemma OneMatch(lb: TypeMap, acc: Accessor, tb: TypeMap, tid: nat, rank: nat -> nat)
    requires Layered(tb, rank) && MatchStep(lb, acc, tb, tid, rank).Some?
    ensures var s := MatchStep(lb, acc, tb, tid, rank).value;
            MatchTail(lb, [acc], tb, tid, rank) == Some(Trail([s.acc], s.bits))
  {
    hide MatchStep, Resolve;
    var s := MatchStep(lb, acc, tb, tid, rank).value;
    var accs := [acc];
    assert MatchTail(lb, accs[1..], tb, s.acc.typ, rank) == Some(Trail([], 0));
    assert Prepend(s, Some(Trail([], 0))) == Some(Trail([s.acc], s.bits)) by { assert [s.acc] + [] == [s.acc]; }
  }
}
