/** Recursive type matching for relocations that ask whether a type matches: a preorder on the types
    whose unfolding fits the depth limit. */
module TypesMatch {
  import opened Words
  import opened Btf

  /** Essential names agree; an unnamed target needs an unnamed local. */
  predicate NamesMatch(ln: string, tn: string) {
    if tn == "" then ln == "" else EssentialName(ln) == EssentialName(tn)
  }

  /** Same size, and every local enumerator has a counterpart by name. */
  predicate EnumsMatch(lt: BtfType, tt: BtfType) {
    && lt.size == tt.size && |lt.enums| <= |tt.enums|
    && forall i :: 0 <= i < |lt.enums| ==> EnumeratorIn(lt.enums[i].0, tt)
  }

  predicate EnumeratorIn(n: string, tt: BtfType) {
    exists j :: 0 <= j < |tt.enums| && NamesMatch(n, tt.enums[j].0)
  }

  /** Some target member has a matching name and a matching type. */
  predicate MemberMatches(lb: TypeMap, lm: Member, tb: TypeMap, tms: seq<Member>, behindPtr: bool, depth: int)
    decreases depth + 2, 1
  {
    exists j :: 0 <= j < |tms| && NamesMatch(lm.name, tms[j].name)
      && TypesMatch(lb, lm.typ, tb, tms[j].typ, behindPtr, depth)
  }

  predicate TypesMatch(lb: TypeMap, lid: nat, tb: TypeMap, tid: nat, behindPtr: bool, depth: int)
    decreases depth + 2, 0
  {
    if depth < 0 then false
    else
      var lt, tt := Resolve(lb, lid), Resolve(tb, tid);
      var lk, tk := lt.kind, tt.kind;
      if !NamesMatch(lt.name, tt.name) then false
      else if lk == KFwd then
        if behindPtr && tk != KFwd then (tk == KStruct && !lt.kflag) || (tk == KUnion && lt.kflag)
        else tk == KFwd && lt.kflag == tt.kflag
      else if lk.AnyEnum() then tk.AnyEnum() && EnumsMatch(lt, tt)
      else if lk.Composite() then
        if behindPtr then tk == lk || (tk == KFwd && (lk == KUnion) == tt.kflag)
        else
          && tk == lk && |lt.members| <= |tt.members|
          && forall i :: 0 <= i < |lt.members| ==>
               MemberMatches(lb, lt.members[i], tb, tt.members, behindPtr, depth - 1)
      else if lk != tk then false
      else match lk
        case KInt => lt.size == tt.size && lt.signed == tt.signed
        case KFloat => lt.size == tt.size
        case KPtr => TypesMatch(lb, lt.typ, tb, tt.typ, true, depth - 1)
        case KArray => lt.nelems == tt.nelems && TypesMatch(lb, lt.elem, tb, tt.elem, behindPtr, depth - 1)
        case KFuncProto =>
          && |lt.params| == |tt.params| && TypesMatch(lb, lt.typ, tb, tt.typ, behindPtr, depth - 1)
          && forall i :: 0 <= i < |lt.params| ==> TypesMatch(lb, lt.params[i], tb, tt.params[i], behindPtr, depth - 1)
        case _ => lk == KVoid
  }

  // ----- the order -----

  lemma NamesMatchTransitive(a: string, b: string, c: string)
    requires NamesMatch(a, b) && NamesMatch(b, c)
    ensures NamesMatch(a, c)
  {
  }

  lemma EnumsMatchTransitive(a: BtfType, b: BtfType, c: BtfType)
    requires EnumsMatch(a, b) && EnumsMatch(b, c)
    ensures EnumsMatch(a, c)
  {
    hide NamesMatch;
    forall i | 0 <= i < |a.enums|
      ensures EnumeratorIn(a.enums[i].0, c)
    {
      var j :| 0 <= j < |b.enums| && NamesMatch(a.enums[i].0, b.enums[j].0);
      assert EnumeratorIn(b.enums[j].0, c);
      var k :| 0 <= k < |c.enums| && NamesMatch(b.enums[j].0, c.enums[k].0);
      NamesMatchTransitive(a.enums[i].0, b.enums[j].0, c.enums[k].0);
    }
  }

  /** Matching composes across three type graphs at the same depth. */
  lemma {:induction false} MatchTransitive(a: TypeMap, x: nat, b: TypeMap, y: nat, c: TypeMap, z: nat, behindPtr: bool,
                                           depth: int)
    requires TypesMatch(a, x, b, y, behindPtr, depth) && TypesMatch(b, y, c, z, behindPtr, depth)
    ensures TypesMatch(a, x, c, z, behindPtr, depth)
    decreases depth + 2, 3
  {
    hide TypesMatch, Resolve;
    var k := Resolve(a, x).kind;
    if k.Composite() && !behindPtr {
      CompositeTransitive(a, x, b, y, c, z, depth);
    } else if k == KPtr || k == KArray || k == KFuncProto {
      LinkTransitive(a, x, b, y, c, z, behindPtr, depth);
    } else {
      FlatTransitive(a, x, b, y, c, z, behindPtr, depth);
    }
  }

  /** Kinds decided at one level: scalars, enums, forward declarations, and composites behind a pointer. */
  lemma FlatTransitive(a: TypeMap, x: nat, b: TypeMap, y: nat, c: TypeMap, z: nat, behindPtr: bool, depth: int)
    requires TypesMatch(a, x, b, y, behindPtr, depth) && TypesMatch(b, y, c, z, behindPtr, depth)
    requires var k := Resolve(a, x).kind; k != KPtr && k != KArray && k != KFuncProto && (k.Composite() ==> behindPtr)
    ensures TypesMatch(a, x, c, z, behindPtr, depth)
  {
    hide NamesMatch, EnumsMatch, Resolve, MemberMatches;
    var at, bt, ct := Resolve(a, x), Resolve(b, y), Resolve(c, z);
    NamesMatchTransitive(at.name, bt.name, ct.name);
    if at.kind.AnyEnum() { EnumsMatchTransitive(at, bt, ct); }
  }

  lemma {:induction false} CompositeTransitive(a: TypeMap, x: nat, b: TypeMap, y: nat, c: TypeMap, z: nat, depth: int)
    requires TypesMatch(a, x, b, y, false, depth) && TypesMatch(b, y, c, z, false, depth)
    requires Resolve(a, x).kind.Composite()
    ensures TypesMatch(a, x, c, z, false, depth)
    decreases depth + 2, 2
  {
    hide NamesMatch, EnumsMatch, Resolve, MemberMatches;
    var at, bt, ct := Resolve(a, x), Resolve(b, y), Resolve(c, z);
    NamesMatchTransitive(at.name, bt.name, ct.name);
    forall i | 0 <= i < |at.members|
      ensures MemberMatches(a, at.members[i], c, ct.members, false, depth - 1)
    {
      hide TypesMatch;
      MemberTransitive(a, at.members[i], b, bt.members, c, ct.members, false, depth - 1);
    }
  }

  lemma {:induction false} LinkTransitive(a: TypeMap, x: nat, b: TypeMap, y: nat, c: TypeMap, z: nat, behindPtr: bool,
                                          depth: int)
    requires TypesMatch(a, x, b, y, behindPtr, depth) && TypesMatch(b, y, c, z, behindPtr, depth)
    requires var k := Resolve(a, x).kind; k == KPtr || k == KArray || k == KFuncProto
    ensures TypesMatch(a, x, c, z, behindPtr, depth)
    decreases depth + 2, 2
  {
    hide NamesMatch, EnumsMatch, Resolve, MemberMatches;
    var at, bt, ct := Resolve(a, x), Resolve(b, y), Resolve(c, z);
    NamesMatchTransitive(at.name, bt.name, ct.name);
    if at.kind == KPtr {
      MatchTransitive(a, at.typ, b, bt.typ, c, ct.typ, true, depth - 1);
    } else if at.kind == KArray {
      MatchTransitive(a, at.elem, b, bt.elem, c, ct.elem, behindPtr, depth - 1);
    } else {
      ProtoTransitive(a, at, b, bt, c, ct, behindPtr, depth - 1);
    }
  }

  /** Result and parameters match pairwise. */
  ghost predicate ProtoMatches(a: TypeMap, at: BtfType, b: TypeMap, bt: BtfType, behindPtr: bool, depth: int) {
    && |at.params| == |bt.params| && TypesMatch(a, at.typ, b, bt.typ, behindPtr, depth)
    && forall i :: 0 <= i < |at.params| ==> TypesMatch(a, at.params[i], b, bt.params[i], behindPtr, depth)
  }

  lemma {:induction false} ProtoTransitive(a: TypeMap, at: BtfType, b: TypeMap, bt: BtfType, c: TypeMap, ct: BtfType,
                                           behindPtr: bool, depth: int)
    requires ProtoMatches(a, at, b, bt, behindPtr, depth) && ProtoMatches(b, bt, c, ct, behindPtr, depth)
    ensures ProtoMatches(a, at, c, ct, behindPtr, depth)
    decreases depth + 2, 4
  {
    hide TypesMatch;
    MatchTransitive(a, at.typ, b, bt.typ, c, ct.typ, behindPtr, depth);
    forall i | 0 <= i < |at.params|
      ensures TypesMatch(a, at.params[i], c, ct.params[i], behindPtr, depth)
    {
      MatchTransitive(a, at.params[i], b, bt.params[i], c, ct.params[i], behindPtr, depth);
    }
  }

  lemma {:induction false} MemberTransitive(a: TypeMap, am: Member, b: TypeMap, bms: seq<Member>, c: TypeMap,
                                            cms: seq<Member>, behindPtr: bool, depth: int)
    requires MemberMatches(a, am, b, bms, behindPtr, depth)
    requires forall j :: 0 <= j < |bms| ==> MemberMatches(b, bms[j], c, cms, behindPtr, depth)
    ensures MemberMatches(a, am, c, cms, behindPtr, depth)
    decreases depth + 2, 4
  {
    hide NamesMatch, TypesMatch;
    var j :| 0 <= j < |bms| && NamesMatch(am.name, bms[j].name)
      && TypesMatch(a, am.typ, b, bms[j].typ, behindPtr, depth);
    assert MemberMatches(b, bms[j], c, cms, behindPtr, depth);
    var k :| 0 <= k < |cms| && NamesMatch(bms[j].name, cms[k].name)
      && TypesMatch(b, bms[j].typ, c, cms[k].typ, behindPtr, depth);
    NamesMatchTransitive(am.name, bms[j].name, cms[k].name);
    MatchTransitive(a, am.typ, b, bms[j].typ, c, cms[k].typ, behindPtr, depth);
  }

  // ----- what fits -----

  /** Types the matcher can compare at all. */
  predicate Comparable(k: Kind) {
    !k.KFunc? && !k.KVar? && !k.KDatasec? && !k.KDeclTag? && !k.Modifier()
  }

  /** The types one level below, with whether they are seen behind a pointer; a composite behind a
      pointer is compared by name and opens nothing. */
  function Below(t: BtfType, behindPtr: bool): (cs: seq<(nat, bool)>) {
    match t.kind
    case KPtr => [(t.typ, true)]
    case KArray => [(t.elem, behindPtr)]
    case KFuncProto =>
      [(t.typ, behindPtr)] + seq(|t.params|, i requires 0 <= i < |t.params| => (t.params[i], behindPtr))
    case KStruct =>
      if behindPtr then [] else seq(|t.members|, i requires 0 <= i < |t.members| => (t.members[i].typ, false))
    case KUnion =>
      if behindPtr then [] else seq(|t.members|, i requires 0 <= i < |t.members| => (t.members[i].typ, false))
    case _ => []
  }

  /** The whole unfolding stays within the depth and meets only comparable types. */
  predicate Fits(b: TypeMap, tid: nat, behindPtr: bool, depth: int)
    decreases depth + 2
  {
    && depth >= 0 && Comparable(Resolve(b, tid).kind)
    && var cs := Below(Resolve(b, tid), behindPtr);
       forall i :: 0 <= i < |cs| ==> Fits(b, cs[i].0, cs[i].1, depth - 1)
  }

  lemma FitsBelow(b: TypeMap, tid: nat, behindPtr: bool, depth: int, c: (nat, bool))
    requires Fits(b, tid, behindPtr, depth) && c in Below(Resolve(b, tid), behindPtr)
    ensures Fits(b, c.0, c.1, depth - 1)
  {
  }

  /** Whatever matches anything fits. */
  lemma {:induction false} MatchedFits(lb: TypeMap, lid: nat, tb: TypeMap, tid: nat, behindPtr: bool, depth: int)
    requires TypesMatch(lb, lid, tb, tid, behindPtr, depth)
    ensures Fits(lb, lid, behindPtr, depth)
    decreases depth + 2, 0
  {
    hide NamesMatch, EnumsMatch, Resolve, MemberMatches, Fits;
    var lt, tt := Resolve(lb, lid), Resolve(tb, tid);
    var cs := Below(lt, behindPtr);
    forall i | 0 <= i < |cs|
      ensures Fits(lb, cs[i].0, cs[i].1, depth - 1)
    {
      if lt.kind.Composite() {
        MemberFits(lb, lt.members[i], tb, tt.members, depth - 1);
      } else if lt.kind == KPtr {
        MatchedFits(lb, lt.typ, tb, tt.typ, true, depth - 1);
      } else if lt.kind == KArray {
        MatchedFits(lb, lt.elem, tb, tt.elem, behindPtr, depth - 1);
      } else if i == 0 {
        MatchedFits(lb, lt.typ, tb, tt.typ, behindPtr, depth - 1);
      } else {
        MatchedFits(lb, lt.params[i - 1], tb, tt.params[i - 1], behindPtr, depth - 1);
      }
    }
    FitsFrom(lb, lid, behindPtr, depth);
  }

  lemma FitsFrom(b: TypeMap, tid: nat, behindPtr: bool, depth: int)
    requires depth >= 0 && Comparable(Resolve(b, tid).kind)
    requires forall i :: 0 <= i < |Below(Resolve(b, tid), behindPtr)| ==>
               Fits(b, Below(Resolve(b, tid), behindPtr)[i].0, Below(Resolve(b, tid), behindPtr)[i].1, depth - 1)
    ensures Fits(b, tid, behindPtr, depth)
  {
    hide Resolve, Below;
  }

  lemma {:induction false} MemberFits(lb: TypeMap, lm: Member, tb: TypeMap, tms: seq<Member>, depth: int)
    requires MemberMatches(lb, lm, tb, tms, false, depth)
    ensures Fits(lb, lm.typ, false, depth)
    decreases depth + 2, 1
  {
    hide NamesMatch, TypesMatch, Fits;
    var j :| 0 <= j < |tms| && NamesMatch(lm.name, tms[j].name) && TypesMatch(lb, lm.typ, tb, tms[j].typ, false, depth);
    MatchedFits(lb, lm.typ, tb, tms[j].typ, false, depth);
  }

  lemma EnumsMatchSelf(t: BtfType)
    ensures EnumsMatch(t, t)
  {
    forall i | 0 <= i < |t.enums|
      ensures EnumeratorIn(t.enums[i].0, t)
    {
      assert NamesMatch(t.enums[i].0, t.enums[i].0);
    }
  }

  lemma {:induction false} FittingMatchesItself(b: TypeMap, tid: nat, behindPtr: bool, depth: int)
    requires Fits(b, tid, behindPtr, depth)
    ensures TypesMatch(b, tid, b, tid, behindPtr, depth)
    decreases depth + 2
  {
    hide EnumsMatch, Resolve, Fits, EssentialName;
    var t := Resolve(b, tid);
    assert depth >= 0 && Comparable(t.kind) by { FitsHead(b, tid, behindPtr, depth); }
    EnumsMatchSelf(t);
    var cs := Below(t, behindPtr);
    forall i | 0 <= i < |cs|
      ensures TypesMatch(b, cs[i].0, b, cs[i].0, cs[i].1, depth - 1)
    {
      FitsBelow(b, tid, behindPtr, depth, cs[i]);
      FittingMatchesItself(b, cs[i].0, cs[i].1, depth - 1);
    }
    MatchesFrom(b, tid, behindPtr, depth);
  }

  lemma MatchesFrom(b: TypeMap, tid: nat, behindPtr: bool, depth: int)
    requires depth >= 0 && Comparable(Resolve(b, tid).kind)
    requires forall c :: c in Below(Resolve(b, tid), behindPtr) ==> TypesMatch(b, c.0, b, c.0, c.1, depth - 1)
    ensures TypesMatch(b, tid, b, tid, behindPtr, depth)
  {
    hide EnumsMatch, Resolve, NamesMatch, MemberMatches;
    var t := Resolve(b, tid);
    var cs := Below(t, behindPtr);
    NamesMatchSelf(t.name);
    EnumsMatchSelf(t);
    if t.kind.Composite() {
      if !behindPtr { MembersMatchThemselves(b, t, depth - 1); }
    } else if t.kind == KFuncProto {
      ProtoMatchesItself(b, t, behindPtr, depth - 1);
    } else if t.kind == KPtr || t.kind == KArray {
      assert cs[0] in cs;
    }
  }

  lemma NamesMatchSelf(n: string)
    ensures NamesMatch(n, n)
  {
  }

  lemma MembersMatchThemselves(b: TypeMap, t: BtfType, depth: int)
    requires t.kind.Composite() && forall c :: c in Below(t, false) ==> TypesMatch(b, c.0, b, c.0, c.1, depth)
    ensures forall i :: 0 <= i < |t.members| ==> MemberMatches(b, t.members[i], b, t.members, false, depth)
  {
    hide TypesMatch, NamesMatch;
    forall i | 0 <= i < |t.members|
      ensures MemberMatches(b, t.members[i], b, t.members, false, depth)
    {
      assert Below(t, false)[i] == (t.members[i].typ, false);
      NamesMatchSelf(t.members[i].name);
    }
  }

  lemma ProtoMatchesItself(b: TypeMap, t: BtfType, behindPtr: bool, depth: int)
    requires t.kind == KFuncProto && forall c :: c in Below(t, behindPtr) ==> TypesMatch(b, c.0, b, c.0, c.1, depth)
    ensures ProtoMatches(b, t, b, t, behindPtr, depth)
  {
    hide TypesMatch;
    var cs := Below(t, behindPtr);
    assert cs[0] == (t.typ, behindPtr);
    assert forall i :: 0 <= i < |t.params| ==> cs[i + 1] == (t.params[i], behindPtr);
  }

  lemma FitsHead(b: TypeMap, tid: nat, behindPtr: bool, depth: int)
    requires Fits(b, tid, behindPtr, depth)
    ensures depth >= 0 && Comparable(Resolve(b, tid).kind)
  {
  }

  /** A type matches itself exactly when it fits. */
  lemma SelfMatchIff(b: TypeMap, tid: nat, behindPtr: bool, depth: int)
    ensures TypesMatch(b, tid, b, tid, behindPtr, depth) <==> Fits(b, tid, behindPtr, depth)
  {
    hide TypesMatch, Fits;
    if TypesMatch(b, tid, b, tid, behindPtr, depth) { MatchedFits(b, tid, b, tid, behindPtr, depth); }
    if Fits(b, tid, behindPtr, depth) { FittingMatchesItself(b, tid, behindPtr, depth); }
  }

  /** Where a sequence of choices leads in the unfolding. */
  function Follow(b: TypeMap, tid: nat, behindPtr: bool, path: seq<nat>): (end: Option<(nat, bool)>)
    decreases |path|
  {
    if path == [] then Some((tid, behindPtr))
    else
      var cs := Below(Resolve(b, tid), behindPtr);
      if path[0] >= |cs| then None else Follow(b, cs[path[0]].0, cs[path[0]].1, path[1..])
  }

  ghost predicate PathFits(b: TypeMap, tid: nat, behindPtr: bool, depth: int, path: seq<nat>) {
    var end := Follow(b, tid, behindPtr, path);
    end.Some? ==> |path| <= depth && Comparable(Resolve(b, end.value.0).kind)
  }

  /** Fitting means: every path into the type, through values, arrays, prototypes and pointers up to the
      first composite, is at most depth long and ends in a comparable type. */
  lemma {:induction false} FitsIffPathsFit(b: TypeMap, tid: nat, behindPtr: bool, depth: int)
    ensures Fits(b, tid, behindPtr, depth) <==> forall path :: PathFits(b, tid, behindPtr, depth, path)
    decreases depth + 2
  {
    hide Resolve, Below, Comparable;
    var cs := Below(Resolve(b, tid), behindPtr);
    if Fits(b, tid, behindPtr, depth) {
      forall path
        ensures PathFits(b, tid, behindPtr, depth, path)
      {
        if path != [] && path[0] < |cs| {
          var c := cs[path[0]];
          FitsIffPathsFit(b, c.0, c.1, depth - 1);
          assert PathFits(b, c.0, c.1, depth - 1, path[1..]);
        }
      }
    }
    if forall path :: PathFits(b, tid, behindPtr, depth, path) {
      assert PathFits(b, tid, behindPtr, depth, []);
      forall i | 0 <= i < |cs|
        ensures Fits(b, cs[i].0, cs[i].1, depth - 1)
      {
        var c, d := cs[i], depth - 1;
        var below, ptr := c.0, c.1;
        forall path
          ensures PathFits(b, below, ptr, d, path)
        {
          assert ([i] + path)[1..] == path;
          assert PathFits(b, tid, behindPtr, depth, [i] + path);
        }
        FitsIffPathsFit(b, below, ptr, d);
      }
    }
  }

  /** A longer limit and a pointer in between can only help. */
  lemma {:induction false} MatchGrows(lb: TypeMap, lid: nat, tb: TypeMap, tid: nat, p: bool, d: int, p': bool, d': int)
    requires TypesMatch(lb, lid, tb, tid, p, d) && d <= d' && (p ==> p')
    ensures TypesMatch(lb, lid, tb, tid, p', d')
    decreases d + 2, 1
  {
    hide TypesMatch, Resolve;
    var k := Resolve(lb, lid).kind;
    if k.Composite() && !p' {
      CompositeGrows(lb, lid, tb, tid, d, d');
    } else if k == KPtr || k == KArray || k == KFuncProto {
      LinkGrows(lb, lid, tb, tid, p, d, p', d');
    } else {
      FlatGrows(lb, lid, tb, tid, p, d, p', d');
    }
  }

  lemma FlatGrows(lb: TypeMap, lid: nat, tb: TypeMap, tid: nat, p: bool, d: int, p': bool, d': int)
    requires TypesMatch(lb, lid, tb, tid, p, d) && d <= d' && (p ==> p')
    requires var k := Resolve(lb, lid).kind; k != KPtr && k != KArray && k != KFuncProto && (k.Composite() ==> p')
    ensures TypesMatch(lb, lid, tb, tid, p', d')
  {
    hide NamesMatch, EnumsMatch, Resolve, MemberMatches;
  }

  lemma {:induction false} CompositeGrows(lb: TypeMap, lid: nat, tb: TypeMap, tid: nat, d: int, d': int)
    requires TypesMatch(lb, lid, tb, tid, false, d) && d <= d' && Resolve(lb, lid).kind.Composite()
    ensures TypesMatch(lb, lid, tb, tid, false, d')
    decreases d + 2, 0
  {
    hide NamesMatch, EnumsMatch, Resolve, MemberMatches;
    var lt, tt := Resolve(lb, lid), Resolve(tb, tid);
    forall i | 0 <= i < |lt.members|
      ensures MemberMatches(lb, lt.members[i], tb, tt.members, false, d' - 1)
    {
      MemberGrows(lb, lt.members[i], tb, tt.members, d - 1, d' - 1);
    }
  }

  lemma {:induction false} LinkGrows(lb: TypeMap, lid: nat, tb: TypeMap, tid: nat, p: bool, d: int, p': bool, d': int)
    requires TypesMatch(lb, lid, tb, tid, p, d) && d <= d' && (p ==> p')
    requires var k := Resolve(lb, lid).kind; k == KPtr || k == KArray || k == KFuncProto
    ensures TypesMatch(lb, lid, tb, tid, p', d')
    decreases d + 2, 0
  {
    hide NamesMatch, EnumsMatch, Resolve, MemberMatches;
    var lt, tt := Resolve(lb, lid), Resolve(tb, tid);
    if lt.kind == KPtr {
      MatchGrows(lb, lt.typ, tb, tt.typ, true, d - 1, true, d' - 1);
    } else if lt.kind == KArray {
      MatchGrows(lb, lt.elem, tb, tt.elem, p, d - 1, p', d' - 1);
    } else {
      ProtoGrows(lb, lt, tb, tt, p, d - 1, p', d' - 1);
    }
  }

  lemma {:induction false} ProtoGrows(lb: TypeMap, lt: BtfType, tb: TypeMap, tt: BtfType, p: bool, d: int, p': bool,
                                      d': int)
    requires ProtoMatches(lb, lt, tb, tt, p, d) && d <= d' && (p ==> p')
    ensures ProtoMatches(lb, lt, tb, tt, p', d')
    decreases d + 2, 2
  {
    hide TypesMatch;
    MatchGrows(lb, lt.typ, tb, tt.typ, p, d, p', d');
    forall i | 0 <= i < |lt.params|
      ensures TypesMatch(lb, lt.params[i], tb, tt.params[i], p', d')
    {
      MatchGrows(lb, lt.params[i], tb, tt.params[i], p, d, p', d');
    }
  }

  lemma {:induction false} MemberGrows(lb: TypeMap, lm: Member, tb: TypeMap, tms: seq<Member>, d: int, d': int)
    requires MemberMatches(lb, lm, tb, tms, false, d) && d <= d'
    ensures MemberMatches(lb, lm, tb, tms, false, d')
    decreases d + 2, 2
  {
    hide NamesMatch, TypesMatch;
    var j :| 0 <= j < |tms| && NamesMatch(lm.name, tms[j].name) && TypesMatch(lb, lm.typ, tb, tms[j].typ, false, d);
    MatchGrows(lb, lm.typ, tb, tms[j].typ, false, d, false, d');
  }

  // ----- what a match says about the target -----

  /** Names up to the first triple underscore agree; an unnamed target needs an unnamed local. */
  lemma NamesMatchIff(ln: string, tn: string)
    ensures NamesMatch(ln, tn) <==>
            if tn == "" then ln == ""
            else exists e :: IsEssential(e, ln) && IsEssential(e, tn)
  {
    EssentialIs(ln);
    EssentialIs(tn);
    if tn != "" && exists e :: IsEssential(e, ln) && IsEssential(e, tn) {
      var e :| IsEssential(e, ln) && IsEssential(e, tn);
      OneEssential(e, EssentialName(ln), ln);
      OneEssential(e, EssentialName(tn), tn);
    }
  }

  predicate Separates(name: string, k: nat) {
    k + 3 <= |name| && name[k] == '_' && name[k + 1] == '_' && name[k + 2] == '_'
  }

  /** A prefix that ends at the first triple underscore, or the whole name if it has none. */
  ghost predicate IsEssential(e: string, name: string) {
    e <= name && (forall k :: 0 <= k < |e| ==> !Separates(name, k)) && (e == name || Separates(name, |e|))
  }

  lemma EssentialIs(name: string)
    ensures IsEssential(EssentialName(name), name)
  {
    FlavourIsFirst(name, 0);
  }

  lemma {:induction false} FlavourIsFirst(name: string, i: nat)
    requires i <= |name|
    ensures var p := FlavourAt(name, i);
            (forall k :: i <= k < p ==> !Separates(name, k)) && (p == |name| || Separates(name, p))
    decreases |name| - i
  {
    if i + 3 <= |name| {
      assert name[i..i + 3] == [name[i], name[i + 1], name[i + 2]];
      if !Separates(name, i) { FlavourIsFirst(name, i + 1); }
    }
  }

  lemma OneEssential(e: string, f: string, name: string)
    requires IsEssential(e, name) && IsEssential(f, name)
    ensures e == f
  {
    assert |e| == |f|;
    assert e == name[..|e|] && f == name[..|f|];
  }

  /** What one level of a match asks of the two records, whatever lies below them. */
  ghost predicate LevelMatches(lt: BtfType, tt: BtfType, behindPtr: bool) {
    && NamesMatch(lt.name, tt.name)
    && (|| (lt.kind == KVoid && tt.kind == KVoid)
        || (lt.kind == KInt && tt.kind == KInt && lt.size == tt.size && lt.signed == tt.signed)
        || (lt.kind == KFloat && tt.kind == KFloat && lt.size == tt.size)
        || (lt.kind == KPtr && tt.kind == KPtr)
        || (lt.kind == KArray && tt.kind == KArray && lt.nelems == tt.nelems)
        || (lt.kind == KFuncProto && tt.kind == KFuncProto && |lt.params| == |tt.params|)
        || (lt.kind in {KEnum, KEnum64} && tt.kind in {KEnum, KEnum64} && EnumsCovered(lt, tt))
        || (lt.kind in {KStruct, KUnion} && tt.kind == lt.kind && (behindPtr || |lt.members| <= |tt.members|))
        || (lt.kind == KFwd && tt.kind == KFwd && lt.kflag == tt.kflag)
        || (behindPtr && StandsFor(lt, tt)) || (behindPtr && StandsFor(tt, lt)))
  }

  /** A forward declaration of that kind of composite. */
  predicate StandsFor(fwd: BtfType, t: BtfType) {
    fwd.kind == KFwd && ((t.kind == KStruct && !fwd.kflag) || (t.kind == KUnion && fwd.kflag))
  }

  /** Equal sizes, no fewer enumerators, and one of a matching name for each. */
  ghost predicate EnumsCovered(lt: BtfType, tt: BtfType) {
    && lt.size == tt.size && |lt.enums| <= |tt.enums|
    && forall n :: n in lt.enums ==> exists m :: m in tt.enums && NamesMatch(n.0, m.0)
  }

  /** A choice of a target type for every path into the local type. */
  type Choice = seq<nat> -> nat

  /** The continuations of a path lead on both sides to what the records refer to: pointees behind a
      pointer, elements, results and parameters in order, and, for a composite outside pointers, for every
      member some target member of a matching name. */
  ghost predicate Continues(lb: TypeMap, lid: nat, behindPtr: bool, g: Choice, path: seq<nat>,
                            lt: BtfType, tt: BtfType, ptr: bool) {
    && (lt.kind == KPtr ==> Leads(lb, lid, behindPtr, g, path, 0, lt.typ, true, tt.typ))
    && (lt.kind == KArray ==> Leads(lb, lid, behindPtr, g, path, 0, lt.elem, ptr, tt.elem))
    && (lt.kind == KFuncProto ==>
          && |lt.params| == |tt.params| && Leads(lb, lid, behindPtr, g, path, 0, lt.typ, ptr, tt.typ)
          && forall i :: 0 <= i < |lt.params| ==> ParamLeads(lb, lid, behindPtr, g, path, lt, tt, ptr, i))
    && (lt.kind in {KStruct, KUnion} && !ptr ==>
          forall i :: 0 <= i < |lt.members| ==> MemberLeads(lb, lid, behindPtr, g, path, lt, tt, i))
  }

  ghost predicate ParamLeads(lb: TypeMap, lid: nat, behindPtr: bool, g: Choice, path: seq<nat>,
                             lt: BtfType, tt: BtfType, ptr: bool, i: nat)
    requires i < |lt.params| == |tt.params|
  {
    Leads(lb, lid, behindPtr, g, path, i + 1, lt.params[i], ptr, tt.params[i])
  }

  ghost predicate MemberLeads(lb: TypeMap, lid: nat, behindPtr: bool, g: Choice, path: seq<nat>,
                              lt: BtfType, tt: BtfType, i: nat)
    requires i < |lt.members|
  {
    exists j :: 0 <= j < |tt.members| && NamesMatch(lt.members[i].name, tt.members[j].name)
      && Leads(lb, lid, behindPtr, g, path, i, lt.members[i].typ, false, tt.members[j].typ)
  }

  /** The records a path leads to on the two sides agree, and so do its continuations. */
  ghost predicate PathMatches(lb: TypeMap, lid: nat, tb: TypeMap, g: Choice, behindPtr: bool, depth: int,
                              path: seq<nat>) {
    var end := Follow(lb, lid, behindPtr, path);
    end.Some? ==>
      var lt, tt := Resolve(lb, end.value.0), Resolve(tb, g(path));
      && |path| <= depth && LevelMatches(lt, tt, end.value.1)
      && Continues(lb, lid, behindPtr, g, path, lt, tt, end.value.1)
  }

  /** Continuation i of the path leads to that local type and that target type. */
  ghost predicate Leads(lb: TypeMap, lid: nat, behindPtr: bool, g: Choice, path: seq<nat>, i: nat,
                        l: nat, ptr: bool, t: nat) {
    Follow(lb, lid, behindPtr, path + [i]) == Some((l, ptr)) && g(path + [i]) == t
  }

  ghost predicate ChoiceMatches(lb: TypeMap, lid: nat, tb: TypeMap, tid: nat, g: Choice, behindPtr: bool, depth: int) {
    g([]) == tid && forall path :: PathMatches(lb, lid, tb, g, behindPtr, depth, path)
  }

  /** What lies below matches as well. */
  ghost predicate ChildrenMatch(lb: TypeMap, lt: BtfType, tb: TypeMap, tt: BtfType, ptr: bool, depth: int) {
    && (lt.kind == KPtr ==> TypesMatch(lb, lt.typ, tb, tt.typ, true, depth))
    && (lt.kind == KArray ==> TypesMatch(lb, lt.elem, tb, tt.elem, ptr, depth))
    && (lt.kind == KFuncProto ==> ProtoMatches(lb, lt, tb, tt, ptr, depth))
    && (lt.kind.Composite() && !ptr ==>
          forall i :: 0 <= i < |lt.members| ==> MemberMatches(lb, lt.members[i], tb, tt.members, false, depth))
  }

  lemma EnumsAreCovered(lt: BtfType, tt: BtfType)
    ensures EnumsMatch(lt, tt) <==> EnumsCovered(lt, tt)
  {
    hide NamesMatch;
    if EnumsMatch(lt, tt) {
      forall n | n in lt.enums
        ensures exists m :: m in tt.enums && NamesMatch(n.0, m.0)
      {
        var i :| 0 <= i < |lt.enums| && lt.enums[i] == n;
        assert EnumeratorIn(lt.enums[i].0, tt);
        var j :| 0 <= j < |tt.enums| && NamesMatch(n.0, tt.enums[j].0);
        assert tt.enums[j] in tt.enums;
      }
    }
    if EnumsCovered(lt, tt) {
      forall i | 0 <= i < |lt.enums|
        ensures EnumeratorIn(lt.enums[i].0, tt)
      {
        assert lt.enums[i] in lt.enums;
        var m :| m in tt.enums && NamesMatch(lt.enums[i].0, m.0);
        var j :| 0 <= j < |tt.enums| && tt.enums[j] == m;
      }
    }
  }

  /** One level, and what lies below it. */
  lemma MatchUnfolds(lb: TypeMap, lid: nat, tb: TypeMap, tid: nat, ptr: bool, depth: int)
    ensures var lt, tt := Resolve(lb, lid), Resolve(tb, tid);
            TypesMatch(lb, lid, tb, tid, ptr, depth) <==>
            depth >= 0 && LevelMatches(lt, tt, ptr) && ChildrenMatch(lb, lt, tb, tt, ptr, depth - 1)
  {
    hide TypesMatch, LevelMatches, ChildrenMatch, EnumsMatch, EnumsCovered, Resolve;
    var lt, tt := Resolve(lb, lid), Resolve(tb, tid);
    EnumsAreCovered(lt, tt);
    if lt.kind.Composite() || lt.kind == KFwd || lt.kind.AnyEnum() {
      OpenUnfolds(lb, lid, tb, tid, ptr, depth);
    } else {
      PlainUnfolds(lb, lid, tb, tid, ptr, depth);
    }
  }

  lemma OpenUnfolds(lb: TypeMap, lid: nat, tb: TypeMap, tid: nat, ptr: bool, depth: int)
    requires var k := Resolve(lb, lid).kind; k.Composite() || k == KFwd || k.AnyEnum()
    requires EnumsMatch(Resolve(lb, lid), Resolve(tb, tid)) <==> EnumsCovered(Resolve(lb, lid), Resolve(tb, tid))
    ensures var lt, tt := Resolve(lb, lid), Resolve(tb, tid);
            TypesMatch(lb, lid, tb, tid, ptr, depth) <==>
            depth >= 0 && LevelMatches(lt, tt, ptr) && ChildrenMatch(lb, lt, tb, tt, ptr, depth - 1)
  {
    hide NamesMatch, EnumsMatch, EnumsCovered, Resolve, MemberMatches, ProtoMatches;
  }

  lemma PlainUnfolds(lb: TypeMap, lid: nat, tb: TypeMap, tid: nat, ptr: bool, depth: int)
    requires var k := Resolve(lb, lid).kind; !k.Composite() && k != KFwd && !k.AnyEnum()
    ensures var lt, tt := Resolve(lb, lid), Resolve(tb, tid);
            TypesMatch(lb, lid, tb, tid, ptr, depth) <==>
            depth >= 0 && LevelMatches(lt, tt, ptr) && ChildrenMatch(lb, lt, tb, tt, ptr, depth - 1)
  {
    hide NamesMatch, EnumsMatch, EnumsCovered, Resolve, MemberMatches;
  }

  // ----- from a match to a choice -----

  /** Where continuation i of the empty path leads on the target side. */
  ghost predicate ChildOf(lt: BtfType, tt: BtfType, ptr: bool, i: nat, t: nat) {
    match lt.kind
    case KPtr => t == tt.typ
    case KArray => t == tt.elem
    case KFuncProto =>
      |lt.params| == |tt.params| && i <= |lt.params| && t == (if i == 0 then tt.typ else tt.params[i - 1])
    case _ =>
      i < |lt.members| &&
      exists j :: 0 <= j < |tt.members| && NamesMatch(lt.members[i].name, tt.members[j].name) && t == tt.members[j].typ
  }

  lemma SomeChild(lb: TypeMap, lid: nat, tb: TypeMap, tid: nat, ptr: bool, depth: int, i: nat) returns (t: nat)
    requires TypesMatch(lb, lid, tb, tid, ptr, depth) && i < |Below(Resolve(lb, lid), ptr)|
    ensures ChildOf(Resolve(lb, lid), Resolve(tb, tid), ptr, i, t)
    ensures var c := Below(Resolve(lb, lid), ptr)[i]; TypesMatch(lb, c.0, tb, t, c.1, depth - 1)
  {
    hide TypesMatch, Resolve, LevelMatches, ChildrenMatch, Below, ChildOf;
    MatchUnfolds(lb, lid, tb, tid, ptr, depth);
    t := ChildAt(lb, Resolve(lb, lid), tb, Resolve(tb, tid), ptr, depth - 1, i);
  }

  lemma ChildAt(lb: TypeMap, lt: BtfType, tb: TypeMap, tt: BtfType, ptr: bool, depth: int, i: nat) returns (t: nat)
    requires LevelMatches(lt, tt, ptr) && ChildrenMatch(lb, lt, tb, tt, ptr, depth) && i < |Below(lt, ptr)|
    ensures ChildOf(lt, tt, ptr, i, t)
    ensures var c := Below(lt, ptr)[i]; TypesMatch(lb, c.0, tb, t, c.1, depth)
  {
    hide NamesMatch, TypesMatch, EnumsCovered, MemberMatches, ProtoMatches, Below, ChildOf;
    if lt.kind in {KPtr, KArray} {
      t := PointeeAt(lb, lt, tb, tt, ptr, depth, i);
    } else if lt.kind == KFuncProto {
      t := ParamAt(lb, lt, tb, tt, ptr, depth, i);
    } else {
      t := MemberAt(lb, lt, tb, tt, ptr, depth, i);
    }
  }

  lemma PointeeAt(lb: TypeMap, lt: BtfType, tb: TypeMap, tt: BtfType, ptr: bool, depth: int, i: nat) returns (t: nat)
    requires lt.kind in {KPtr, KArray} && ChildrenMatch(lb, lt, tb, tt, ptr, depth) && i < |Below(lt, ptr)|
    ensures ChildOf(lt, tt, ptr, i, t)
    ensures var c := Below(lt, ptr)[i]; TypesMatch(lb, c.0, tb, t, c.1, depth)
  {
    hide TypesMatch, MemberMatches, ProtoMatches;
    t := if lt.kind == KPtr then tt.typ else tt.elem;
  }

  lemma ParamAt(lb: TypeMap, lt: BtfType, tb: TypeMap, tt: BtfType, ptr: bool, depth: int, i: nat) returns (t: nat)
    requires lt.kind == KFuncProto && ProtoMatches(lb, lt, tb, tt, ptr, depth) && i < |Below(lt, ptr)|
    ensures ChildOf(lt, tt, ptr, i, t)
    ensures var c := Below(lt, ptr)[i]; TypesMatch(lb, c.0, tb, t, c.1, depth)
  {
    hide TypesMatch, Below;
    BelowProto(lt, ptr, i);
    t := if i == 0 then tt.typ else tt.params[i - 1];
  }

  lemma BelowProto(lt: BtfType, ptr: bool, i: nat)
    requires lt.kind == KFuncProto && i < |Below(lt, ptr)|
    ensures i <= |lt.params| && Below(lt, ptr)[i] == (if i == 0 then lt.typ else lt.params[i - 1], ptr)
  {
  }

  lemma MemberAt(lb: TypeMap, lt: BtfType, tb: TypeMap, tt: BtfType, ptr: bool, depth: int, i: nat) returns (t: nat)
    requires lt.kind !in {KPtr, KArray, KFuncProto} && i < |Below(lt, ptr)|
    requires ChildrenMatch(lb, lt, tb, tt, ptr, depth)
    ensures ChildOf(lt, tt, ptr, i, t)
    ensures var c := Below(lt, ptr)[i]; TypesMatch(lb, c.0, tb, t, c.1, depth)
  {
    hide NamesMatch, TypesMatch, MemberMatches, ProtoMatches;
    assert MemberMatches(lb, lt.members[i], tb, tt.members, false, depth);
    var j := MatchedMember(lb, lt.members[i], tb, tt.members, depth);
    t := tt.members[j].typ;
  }

  lemma MatchedMember(lb: TypeMap, m: Member, tb: TypeMap, ms: seq<Member>, depth: int) returns (j: nat)
    requires MemberMatches(lb, m, tb, ms, false, depth)
    ensures j < |ms| && NamesMatch(m.name, ms[j].name) && TypesMatch(lb, m.typ, tb, ms[j].typ, false, depth)
  {
    hide NamesMatch, TypesMatch;
    j :| 0 <= j < |ms| && NamesMatch(m.name, ms[j].name) && TypesMatch(lb, m.typ, tb, ms[j].typ, false, depth);
  }

  ghost predicate IsChild(lb: TypeMap, lid: nat, tb: TypeMap, tid: nat, ptr: bool, depth: int, i: nat, t: nat)
    requires i < |Below(Resolve(lb, lid), ptr)|
  {
    var c := Below(Resolve(lb, lid), ptr)[i];
    ChildOf(Resolve(lb, lid), Resolve(tb, tid), ptr, i, t) && TypesMatch(lb, c.0, tb, t, c.1, depth - 1)
  }

  ghost function ChildTarget(lb: TypeMap, lid: nat, tb: TypeMap, tid: nat, ptr: bool, depth: int, i: nat): (t: nat)
    requires TypesMatch(lb, lid, tb, tid, ptr, depth) && i < |Below(Resolve(lb, lid), ptr)|
    ensures IsChild(lb, lid, tb, tid, ptr, depth, i, t)
  {
    assert exists t: nat :: IsChild(lb, lid, tb, tid, ptr, depth, i, t) by {
      var t := SomeChild(lb, lid, tb, tid, ptr, depth, i);
      assert IsChild(lb, lid, tb, tid, ptr, depth, i, t);
    }
    var t: nat :| IsChild(lb, lid, tb, tid, ptr, depth, i, t);
    t
  }

  /** The target type chosen for a path. */
  ghost function Chosen(lb: TypeMap, lid: nat, tb: TypeMap, tid: nat, ptr: bool, depth: int, path: seq<nat>): (t: nat)
    requires TypesMatch(lb, lid, tb, tid, ptr, depth)
    decreases |path|
  {
    if path == [] then tid
    else
      var cs := Below(Resolve(lb, lid), ptr);
      if path[0] >= |cs| then 0
      else
        var t := ChildTarget(lb, lid, tb, tid, ptr, depth, path[0]);
        Chosen(lb, cs[path[0]].0, tb, t, cs[path[0]].1, depth - 1, path[1..])
  }

  ghost function ChoiceOf(lb: TypeMap, lid: nat, tb: TypeMap, tid: nat, ptr: bool, depth: int): (g: Choice)
    requires TypesMatch(lb, lid, tb, tid, ptr, depth)
    ensures forall path :: g(path) == Chosen(lb, lid, tb, tid, ptr, depth, path)
  {
    path => Chosen(lb, lid, tb, tid, ptr, depth, path)
  }

  /** A path that starts with i says of the type what its rest says of the i-th type below. */
  lemma PathShifts(lb: TypeMap, lid: nat, tb: TypeMap, g: Choice, ptr: bool, depth: int, i: nat, g': Choice,
                   rest: seq<nat>)
    requires i < |Below(Resolve(lb, lid), ptr)| && forall p :: g([i] + p) == g'(p)
    ensures var c := Below(Resolve(lb, lid), ptr)[i];
            PathMatches(lb, lid, tb, g, ptr, depth, [i] + rest) <==> PathMatches(lb, c.0, tb, g', c.1, depth - 1, rest)
  {
    hide Resolve, Below, LevelMatches, Continues;
    FollowShifts(lb, lid, ptr, i, rest);
    hide Follow;
    var c := Below(Resolve(lb, lid), ptr)[i];
    var end := Follow(lb, c.0, c.1, rest);
    if end.Some? {
      ContinuesShifts(lb, lid, g, ptr, i, g', rest, Resolve(lb, end.value.0), Resolve(tb, g'(rest)), end.value.1);
    }
  }

  lemma ContinuesShifts(lb: TypeMap, lid: nat, g: Choice, ptr: bool, i: nat, g': Choice, rest: seq<nat>,
                        lt: BtfType, tt: BtfType, q: bool)
    requires i < |Below(Resolve(lb, lid), ptr)| && forall p :: g([i] + p) == g'(p)
    ensures var c := Below(Resolve(lb, lid), ptr)[i];
            Continues(lb, lid, ptr, g, [i] + rest, lt, tt, q) <==> Continues(lb, c.0, c.1, g', rest, lt, tt, q)
  {
    hide Resolve, Below, NamesMatch;
    var c := Below(Resolve(lb, lid), ptr)[i];
    forall j: nat, l, p, t
      ensures Leads(lb, lid, ptr, g, [i] + rest, j, l, p, t) <==> Leads(lb, c.0, c.1, g', rest, j, l, p, t)
    {
      FollowShifts(lb, lid, ptr, i, rest + [j]);
      assert [i] + rest + [j] == [i] + (rest + [j]);
    }
    hide Leads;
    forall k | 0 <= k < |lt.members|
      ensures MemberLeads(lb, lid, ptr, g, [i] + rest, lt, tt, k) <==> MemberLeads(lb, c.0, c.1, g', rest, lt, tt, k)
    {
    }
    if |lt.params| == |tt.params| {
      forall k | 0 <= k < |lt.params|
        ensures ParamLeads(lb, lid, ptr, g, [i] + rest, lt, tt, q, k) <==>
                ParamLeads(lb, c.0, c.1, g', rest, lt, tt, q, k)
      {
        var n := k + 1;
        assert Leads(lb, lid, ptr, g, [i] + rest, n, lt.params[k], q, tt.params[k])
          <==> Leads(lb, c.0, c.1, g', rest, n, lt.params[k], q, tt.params[k]);
      }
    }
    hide MemberLeads, ParamLeads;
  }

  lemma FollowShifts(b: TypeMap, tid: nat, ptr: bool, i: nat, rest: seq<nat>)
    requires i < |Below(Resolve(b, tid), ptr)|
    ensures var c := Below(Resolve(b, tid), ptr)[i]; Follow(b, tid, ptr, [i] + rest) == Follow(b, c.0, c.1, rest)
  {
    hide Resolve, Below;
    assert ([i] + rest)[1..] == rest;
  }

  lemma FollowOne(b: TypeMap, tid: nat, ptr: bool, i: nat)
    ensures var cs := Below(Resolve(b, tid), ptr); Follow(b, tid, ptr, [i]) == if i < |cs| then Some(cs[i]) else None
  {
    hide Resolve, Below;
    if i < |Below(Resolve(b, tid), ptr)| {
      FollowShifts(b, tid, ptr, i, []);
      assert [i] + [] == [i];
    }
  }

  lemma ChosenOne(lb: TypeMap, lid: nat, tb: TypeMap, tid: nat, ptr: bool, depth: int, i: nat)
    requires TypesMatch(lb, lid, tb, tid, ptr, depth) && i < |Below(Resolve(lb, lid), ptr)|
    ensures Chosen(lb, lid, tb, tid, ptr, depth, [i]) == ChildTarget(lb, lid, tb, tid, ptr, depth, i)
  {
    hide TypesMatch, Resolve, Below;
    assert [i][1..] == [];
  }

  /** The empty path: one level, and continuations that lead to what the records refer to. */
  lemma RootMatches(lb: TypeMap, lid: nat, tb: TypeMap, tid: nat, ptr: bool, depth: int)
    requires TypesMatch(lb, lid, tb, tid, ptr, depth)
    ensures PathMatches(lb, lid, tb, ChoiceOf(lb, lid, tb, tid, ptr, depth), ptr, depth, [])
  {
    MatchUnfolds(lb, lid, tb, tid, ptr, depth);
    hide TypesMatch, Resolve, LevelMatches, NamesMatch, EnumsCovered;
    var g := ChoiceOf(lb, lid, tb, tid, ptr, depth);
    var lt, tt := Resolve(lb, lid), Resolve(tb, tid);
    var cs := Below(lt, ptr);
    forall i: nat | i < |cs|
      ensures Follow(lb, lid, ptr, [] + [i]) == Some(cs[i]) && ChildOf(lt, tt, ptr, i, g([] + [i]))
    {
      hide Below;
      FollowOne(lb, lid, ptr, i);
      ChosenOne(lb, lid, tb, tid, ptr, depth, i);
      assert [] + [i] == [i];
    }
    assert Follow(lb, lid, ptr, []) == Some((lid, ptr)) && g([]) == tid;
    hide Follow, Chosen;
    RootContinues(lb, lid, tb, tid, g, ptr);
  }

  lemma RootContinues(lb: TypeMap, lid: nat, tb: TypeMap, tid: nat, g: Choice, ptr: bool)
    requires var lt, tt := Resolve(lb, lid), Resolve(tb, tid);
             && (lt.kind == KFuncProto ==> |lt.params| == |tt.params|)
             && var cs := Below(lt, ptr);
                forall i: nat :: i < |cs| ==>
                  Follow(lb, lid, ptr, [] + [i]) == Some(cs[i]) && ChildOf(lt, tt, ptr, i, g([] + [i]))
    ensures Continues(lb, lid, ptr, g, [], Resolve(lb, lid), Resolve(tb, tid), ptr)
  {
    hide Follow, Resolve, NamesMatch;
    var lt, tt := Resolve(lb, lid), Resolve(tb, tid);
    var cs := Below(lt, ptr);
    if lt.kind == KPtr || lt.kind == KArray {
      assert 0 < |cs|;
    } else if lt.kind == KFuncProto {
      assert 0 < |cs|;
      forall i | 0 <= i < |lt.params|
        ensures ParamLeads(lb, lid, ptr, g, [], lt, tt, ptr, i)
      {
        var k := i + 1;
        assert k < |cs| && cs[k] == (lt.params[i], ptr);
      }
    } else if lt.kind.Composite() && !ptr {
      forall i | 0 <= i < |lt.members|
        ensures MemberLeads(lb, lid, ptr, g, [], lt, tt, i)
      {
        assert i < |cs| && cs[i] == (lt.members[i].typ, false);
      }
    }
  }

  lemma {:induction false} ChoiceIsGood(lb: TypeMap, lid: nat, tb: TypeMap, tid: nat, ptr: bool, depth: int,
                                        path: seq<nat>)
    requires TypesMatch(lb, lid, tb, tid, ptr, depth)
    ensures PathMatches(lb, lid, tb, ChoiceOf(lb, lid, tb, tid, ptr, depth), ptr, depth, path)
    decreases |path|
  {
    hide TypesMatch, Resolve, Below, PathMatches;
    var g := ChoiceOf(lb, lid, tb, tid, ptr, depth);
    if path == [] {
      RootMatches(lb, lid, tb, tid, ptr, depth);
    } else if path[0] < |Below(Resolve(lb, lid), ptr)| {
      var i, rest := path[0], path[1..];
      var c, t := Below(Resolve(lb, lid), ptr)[i], ChildTarget(lb, lid, tb, tid, ptr, depth, i);
      var g' := ChoiceOf(lb, c.0, tb, t, c.1, depth - 1);
      forall p: seq<nat>
        ensures g([i] + p) == g'(p)
      {
        assert ([i] + p)[1..] == p;
      }
      ChoiceIsGood(lb, c.0, tb, t, c.1, depth - 1, rest);
      PathShifts(lb, lid, tb, g, ptr, depth, i, g', rest);
      assert path == [i] + rest;
    } else {
      NowhereMatches(lb, lid, tb, g, ptr, depth, path);
    }
  }

  lemma NowhereMatches(lb: TypeMap, lid: nat, tb: TypeMap, g: Choice, ptr: bool, depth: int, path: seq<nat>)
    requires path != [] && path[0] >= |Below(Resolve(lb, lid), ptr)|
    ensures PathMatches(lb, lid, tb, g, ptr, depth, path)
  {
    hide Resolve, Below;
  }

  // ----- from a choice to a match -----

  lemma {:induction false} ChoiceGivesMatch(lb: TypeMap, lid: nat, tb: TypeMap, tid: nat, g: Choice, ptr: bool,
                                            depth: int)
    requires ChoiceMatches(lb, lid, tb, tid, g, ptr, depth)
    ensures TypesMatch(lb, lid, tb, tid, ptr, depth)
    decreases depth + 2
  {
    hide TypesMatch, Resolve, Below, LevelMatches, NamesMatch;
    assert PathMatches(lb, lid, tb, g, ptr, depth, []);
    var lt, tt := Resolve(lb, lid), Resolve(tb, tid);
    var cs := Below(lt, ptr);
    forall i: nat | i < |cs|
      ensures TypesMatch(lb, cs[i].0, tb, g([] + [i]), cs[i].1, depth - 1)
    {
      hide PathMatches;
      var g' := (p: seq<nat>) => g([i] + p);
      assert g([] + [i]) == g'([]) by { assert [] + [i] == [i] + []; }
      var l, p, d := cs[i].0, cs[i].1, depth - 1;
      forall rest
        ensures PathMatches(lb, l, tb, g', p, d, rest)
      {
        assert PathMatches(lb, lid, tb, g, ptr, depth, [i] + rest);
        PathShifts(lb, lid, tb, g, ptr, depth, i, g', rest);
      }
      ChoiceGivesMatch(lb, l, tb, g([] + [i]), g', p, d);
    }
    LedChildrenMatch(lb, lid, tb, tid, g, ptr, depth);
    MatchUnfolds(lb, lid, tb, tid, ptr, depth);
  }

  lemma LedTo(lb: TypeMap, lid: nat, g: Choice, ptr: bool, i: nat, l: nat, p: bool, t: nat)
    requires Leads(lb, lid, ptr, g, [], i, l, p, t)
    ensures i < |Below(Resolve(lb, lid), ptr)| && Below(Resolve(lb, lid), ptr)[i] == (l, p) && g([] + [i]) == t
  {
    hide Resolve, Below;
    FollowOne(lb, lid, ptr, i);
    assert [] + [i] == [i];
  }

  lemma LedChildrenMatch(lb: TypeMap, lid: nat, tb: TypeMap, tid: nat, g: Choice, ptr: bool, depth: int)
    requires g([]) == tid && PathMatches(lb, lid, tb, g, ptr, depth, [])
    requires var cs := Below(Resolve(lb, lid), ptr);
             forall i: nat :: i < |cs| ==> TypesMatch(lb, cs[i].0, tb, g([] + [i]), cs[i].1, depth - 1)
    ensures ChildrenMatch(lb, Resolve(lb, lid), tb, Resolve(tb, tid), ptr, depth - 1)
  {
    hide TypesMatch, Resolve, Below, NamesMatch, Leads, EnumsCovered;
    var lt, tt := Resolve(lb, lid), Resolve(tb, tid);
    assert Follow(lb, lid, ptr, []) == Some((lid, ptr));
    if lt.kind == KPtr {
      LedTo(lb, lid, g, ptr, 0, lt.typ, true, tt.typ);
    } else if lt.kind == KArray {
      LedTo(lb, lid, g, ptr, 0, lt.elem, ptr, tt.elem);
    } else if lt.kind == KFuncProto {
      LedTo(lb, lid, g, ptr, 0, lt.typ, ptr, tt.typ);
      forall i | 0 <= i < |lt.params|
        ensures TypesMatch(lb, lt.params[i], tb, tt.params[i], ptr, depth - 1)
      {
        assert ParamLeads(lb, lid, ptr, g, [], lt, tt, ptr, i);
        LedTo(lb, lid, g, ptr, i + 1, lt.params[i], ptr, tt.params[i]);
      }
    } else if lt.kind.Composite() && !ptr {
      forall i | 0 <= i < |lt.members|
        ensures MemberMatches(lb, lt.members[i], tb, tt.members, false, depth - 1)
      {
        assert MemberLeads(lb, lid, ptr, g, [], lt, tt, i);
        var j :| 0 <= j < |tt.members| && NamesMatch(lt.members[i].name, tt.members[j].name)
          && Leads(lb, lid, ptr, g, [], i, lt.members[i].typ, false, tt.members[j].typ);
        LedTo(lb, lid, g, ptr, i, lt.members[i].typ, false, tt.members[j].typ);
      }
    }
  }

  /** Two types match exactly when some choice of a target type for every path into the local one starts
      at the target and agrees with it along every path. */
  lemma MatchIffPathsMatch(lb: TypeMap, lid: nat, tb: TypeMap, tid: nat, behindPtr: bool, depth: int)
    ensures TypesMatch(lb, lid, tb, tid, behindPtr, depth) <==>
            exists g :: ChoiceMatches(lb, lid, tb, tid, g, behindPtr, depth)
  {
    hide TypesMatch, PathMatches;
    if TypesMatch(lb, lid, tb, tid, behindPtr, depth) {
      var g := ChoiceOf(lb, lid, tb, tid, behindPtr, depth);
      forall path
        ensures PathMatches(lb, lid, tb, g, behindPtr, depth, path)
      {
        ChoiceIsGood(lb, lid, tb, tid, behindPtr, depth, path);
      }
      assert g([]) == tid;
      assert ChoiceMatches(lb, lid, tb, tid, g, behindPtr, depth);
    }
    if g :| ChoiceMatches(lb, lid, tb, tid, g, behindPtr, depth) {
      ChoiceGivesMatch(lb, lid, tb, tid, g, behindPtr, depth);
    }
  }

  /** In particular a structure matches no union, and differently named types never match. */
  lemma MatchedHeads(lb: TypeMap, lid: nat, tb: TypeMap, tid: nat, behindPtr: bool, depth: int)
    requires TypesMatch(lb, lid, tb, tid, behindPtr, depth)
    ensures LevelMatches(Resolve(lb, lid), Resolve(tb, tid), behindPtr)
  {
    MatchUnfolds(lb, lid, tb, tid, behindPtr, depth);
  }
}
