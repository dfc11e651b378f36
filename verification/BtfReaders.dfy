/** The two readers of a BTF type section: the relocation engine's, which walks every field with a cursor,
    and the object reader's, which jumps from record to record by table. They see the same types. */
module BtfReaders {
  import opened Words

  // ----- the format -----

  type Bytes = seq<u8>

  function U32(d: Bytes, p: nat): (v: nat)
    requires p + 4 <= |d|
  {
    LeValue(d[p..p + 4])
  }

  function KindOf(info: nat): (k: nat) { info / 0x100_0000 % 32 }
  function VlenOf(info: nat): (n: nat) { info % 0x1_0000 }
  function KflagOf(info: nat): (b: bool) { info / 0x8000_0000 % 2 == 1 }

  const K_INT: nat := 1
  const K_PTR: nat := 2
  const K_ARRAY: nat := 3
  const K_STRUCT: nat := 4
  const K_UNION: nat := 5
  const K_ENUM: nat := 6
  const K_FUNC_PROTO: nat := 13
  const K_VAR: nat := 14
  const K_DATASEC: nat := 15
  const K_FLOAT: nat := 16
  const K_DECL_TAG: nat := 17
  const K_ENUM64: nat := 19

  predicate IsModifier(k: nat) { 8 <= k <= 11 || k == 18 }

  /** Bytes after the common header that do not depend on vlen, and bytes per vlen entry. */
  function Extra(k: nat): (n: nat) {
    if k == K_INT || k == K_VAR || k == K_DECL_TAG then 4 else if k == K_ARRAY then 12 else 0
  }

  function PerVlen(k: nat): (n: nat) {
    if k in {K_STRUCT, K_UNION, K_DATASEC, K_ENUM64} then 12 else if k == K_ENUM || k == K_FUNC_PROTO then 8 else 0
  }

  function RecordLen(d: Bytes, p: nat): (n: nat)
    requires p + 12 <= |d|
    ensures n >= 12
  {
    var info := U32(d, p + 4);
    12 + Extra(KindOf(info)) + PerVlen(KindOf(info)) * VlenOf(info)
  }

  /** The length of a record, from the bytes of its info word: the kind in the low five bits of the last, the
      number of entries in the first two. */
  lemma RecordLengthIs(d: Bytes, p: nat)
    requires p + 12 <= |d|
    ensures var kind: nat, low: nat, high: nat := d[p + 7] % 32, d[p + 4], d[p + 5];
            var vlen := low + 256 * high;
            RecordLen(d, p) ==
            if kind in {1, 14, 17} then 16
            else if kind == 3 then 24
            else if kind in {4, 5, 15, 19} then 12 + 12 * vlen
            else if kind in {6, 13} then 12 + 8 * vlen
            else 12
    ensures KflagOf(U32(d, p + 4)) <==> d[p + 7] >= 128
  {
    FourBytes(d[p + 4..p + 8]);
    hide LeValue;
    InfoParts(d[p + 4], d[p + 5], d[p + 6], d[p + 7]);
    hide KindOf, VlenOf, KflagOf;
  }

  lemma FourBytes(bs: seq<u8>)
    requires |bs| == 4
    ensures LeValue(bs) == bs[0] as int + 256 * bs[1] as int + 0x1_0000 * bs[2] as int + 0x100_0000 * bs[3] as int
  {
    hide LeValue;
    LeStep(bs);
    LeStep(bs[1..]);
    LeStep(bs[2..]);
    LeStep(bs[3..]);
    assert bs[1..][1..] == bs[2..] && bs[2..][1..] == bs[3..] && bs[3..][1..] == [];
    NoValue();
  }

  lemma InfoParts(b0: nat, b1: nat, b2: nat, b3: nat)
    requires b0 < 256 && b1 < 256 && b2 < 256 && b3 < 256
    ensures var info := b0 + 256 * b1 + 0x1_0000 * b2 + 0x100_0000 * b3;
            KindOf(info) == b3 % 32 && VlenOf(info) == b0 + 256 * b1 && (KflagOf(info) <==> b3 >= 128)
  {
    var low := b0 + 256 * b1 + 0x1_0000 * b2;
    ModUnique(low + 0x100_0000 * b3, 0x100_0000, b3, low);
  }

  /** Every record that starts before the end lies inside the data. */
  predicate WellFormed(d: Bytes, p: nat, end: nat)
    requires end <= |d|
    decreases end - p
  {
    p + 12 <= end ==> p + RecordLen(d, p) <= |d| && WellFormed(d, p + RecordLen(d, p), end)
  }

  predicate Inside(d: Bytes, p: nat) { p + 12 <= |d| && p + RecordLen(d, p) <= |d| }

  predicate AllInside(d: Bytes, ps: seq<nat>) { forall i :: 0 <= i < |ps| ==> Inside(d, ps[i]) }

  /** Where the records start. */
  function Starts(d: Bytes, p: nat, end: nat): (ps: seq<nat>)
    requires end <= |d| && WellFormed(d, p, end)
    ensures AllInside(d, ps)
    decreases end - p
  {
    if p + 12 <= end then [p] + Starts(d, p + RecordLen(d, p), end) else []
  }

  // ----- the object reader -----

  /** What a kind adds to the common header: an array's element type and count, a composite's member
      names and types, a data section's variables, an integer's encoding, a tag's component. */
  datatype Tail =
    | NoTail
    | ArrayTail(elem: nat, nelems: nat)
    | MemberTail(members: seq<(nat, nat)>)
    | VarTail(vars: seq<nat>)
    | IntTail(enc: nat)
    | TagTail(component: int)

  /** Kind, name offset, the size-or-type word, the entry count and the rest; at is where it starts. */
  datatype Compact = Compact(at: nat, kind: nat, name: nat, word: nat, vlen: nat, tail: Tail)

  const COMPACT_VOID := Compact(0, 0, 0, 0, 0, NoTail)

  function Signed32(v: nat): (r: int) { if v < 0x8000_0000 then v else v - 0x1_0000_0000 }

  /** The four encoding bits of an integer's descriptor. */
  function EncodingOf(word: nat): (enc: nat) { word / 0x100_0000 % 16 }

  function MemberPairs(d: Bytes, p: nat, n: nat): (ms: seq<(nat, nat)>)
    requires p + 12 * n <= |d|
    ensures |ms| == n
    ensures forall i :: 0 <= i < n ==> ms[i] == (U32(d, p + 12 * i), U32(d, p + 12 * i + 4))
  {
    seq(n, i requires 0 <= i < n => (U32(d, p + 12 * i), U32(d, p + 12 * i + 4)))
  }

  function VarIds(d: Bytes, p: nat, n: nat): (vs: seq<nat>)
    requires p + 12 * n <= |d|
    ensures |vs| == n && forall i :: 0 <= i < n ==> vs[i] == U32(d, p + 12 * i)
  {
    seq(n, i requires 0 <= i < n => U32(d, p + 12 * i))
  }

  function TailAt(d: Bytes, p: nat, k: nat, n: nat): (t: Tail)
    requires p + 12 + Extra(k) + PerVlen(k) * n <= |d|
  {
    if k == K_ARRAY then ArrayTail(U32(d, p + 12), U32(d, p + 20))
    else if k == K_STRUCT || k == K_UNION then MemberTail(MemberPairs(d, p + 12, n))
    else if k == K_DATASEC then VarTail(VarIds(d, p + 12, n))
    else if k == K_INT then IntTail(EncodingOf(U32(d, p + 12)))
    else if k == K_DECL_TAG then TagTail(Signed32(U32(d, p + 12)))
    else NoTail
  }

  function CompactAt(d: Bytes, p: nat): (t: Compact)
    requires Inside(d, p)
  {
    var info := U32(d, p + 4);
    var k, n := KindOf(info), VlenOf(info);
    Compact(p, k, U32(d, p), U32(d, p + 8), n, TailAt(d, p, k, n))
  }

  ghost predicate CompactTable(d: Bytes, ps: seq<nat>, types: map<nat, Compact>)
    requires AllInside(d, ps)
  {
    && (forall tid: nat :: tid in types <==> tid <= |ps|) && types[0] == COMPACT_VOID
    && forall i :: 0 <= i < |ps| ==> types[i + 1] == CompactAt(d, ps[i])
  }

  method BtfTypes(d: Bytes, start: nat, end: nat) returns (types: map<nat, Compact>)
    requires end <= |d| && WellFormed(d, start, end)
    ensures CompactTable(d, Starts(d, start, end), types)
  {
    hide U32, KindOf, VlenOf, Extra, PerVlen, TailAt;
    types := map[0 := COMPACT_VOID];
    var pos, tid := start, 1;
    ghost var done: seq<nat> := [];
    ghost var all := Starts(d, start, end);
    assert done + all == all;
    while pos + 12 <= end
      invariant WellFormed(d, pos, end) && tid == |done| + 1 && done + Starts(d, pos, end) == all
      invariant AllInside(d, done) && CompactTable(d, done, types)
      decreases end - pos
    {
      var info := U32(d, pos + 4);
      var kind, vlen := KindOf(info), VlenOf(info);
      var extra := TailAt(d, pos, kind, vlen);
      types := types[tid := Compact(pos, kind, U32(d, pos), U32(d, pos + 8), vlen, extra)];
      CompactMore(d, done, types, pos);
      done := done + [pos];
      pos := pos + (12 + Extra(kind) + PerVlen(kind) * vlen);
      tid := tid + 1;
    }
    assert done == all;
  }

  lemma CompactMore(d: Bytes, ps: seq<nat>, types: map<nat, Compact>, p: nat)
    requires AllInside(d, ps)
    requires Inside(d, p)
    requires (forall tid: nat :: tid in types <==> tid <= |ps| + 1) && types[0] == COMPACT_VOID
    requires (forall i :: 0 <= i < |ps| ==> types[i + 1] == CompactAt(d, ps[i])) && types[|ps| + 1] == CompactAt(d, p)
    ensures CompactTable(d, ps + [p], types)
  {
    hide CompactAt, RecordLen;
  }

  // ----- the relocation engine's reader -----

  datatype RawMember = RawMember(name: nat, typ: nat, bitOffset: nat, bitfieldSize: nat)

  /** A whole record; names are string offsets. */
  datatype Full = Full(
    at: nat, kind: nat, name: nat, kflag: bool, vlen: nat, size: nat, typ: nat, intBits: nat, intSigned: bool,
    intEnc: nat, elem: nat, nelems: nat, members: seq<RawMember>, enums: seq<(nat, int)>, params: seq<(nat, nat)>)

  const FULL_VOID := Full(0, 0, 0, false, 0, 0, 0, 0, false, 0, 0, 0, [], [], [])

  predicate SizedKind(k: nat) {
    k in {K_STRUCT, K_UNION, K_ENUM, K_ENUM64, K_INT, K_FLOAT, K_DATASEC}
  }

  function MemberAt(d: Bytes, p: nat, kflag: bool): (m: RawMember)
    requires p + 12 <= |d|
  {
    var off := U32(d, p + 8);
    if kflag then RawMember(U32(d, p), U32(d, p + 4), off % 0x100_0000, off / 0x100_0000)
    else RawMember(U32(d, p), U32(d, p + 4), off, 0)
  }

  function Enum64Value(lo: nat, hi: nat, signed: bool): (v: int) {
    var v := hi * 0x1_0000_0000 + lo;
    if signed && v >= 0x8000_0000_0000_0000 then v - 0x1_0000_0000_0000_0000 else v
  }

  /** The lists are the entries that start at p. */
  ghost predicate MembersAt(d: Bytes, p: nat, kflag: bool, ms: seq<RawMember>) {
    p + 12 * |ms| <= |d| && forall i :: 0 <= i < |ms| ==> ms[i] == MemberAt(d, p + 12 * i, kflag)
  }

  ghost predicate EnumsAt(d: Bytes, p: nat, es: seq<(nat, int)>) {
    p + 8 * |es| <= |d| && forall i :: 0 <= i < |es| ==> es[i] == (U32(d, p + 8 * i), Signed32(U32(d, p + 8 * i + 4)))
  }

  ghost predicate WideEnumsAt(d: Bytes, p: nat, kflag: bool, es: seq<(nat, int)>) {
    p + 12 * |es| <= |d| && forall i :: 0 <= i < |es| ==>
      es[i] == (U32(d, p + 12 * i), Enum64Value(U32(d, p + 12 * i + 4), U32(d, p + 12 * i + 8), kflag))
  }

  ghost predicate ParamsAt(d: Bytes, p: nat, ps: seq<(nat, nat)>) {
    p + 8 * |ps| <= |d| && forall i :: 0 <= i < |ps| ==> ps[i] == (U32(d, p + 8 * i), U32(d, p + 8 * i + 4))
  }

  method ReadMembers(d: Bytes, start: nat, kflag: bool, vlen: nat) returns (ms: seq<RawMember>, pos: nat)
    requires start + 12 * vlen <= |d|
    ensures pos == start + 12 * vlen && |ms| == vlen && MembersAt(d, start, kflag, ms)
  {
    hide U32;
    ms, pos := [], start;
    for i := 0 to vlen
      invariant pos == start + 12 * i && |ms| == i && MembersAt(d, start, kflag, ms)
    {
      var off := U32(d, pos + 8);
      var bfsz, boff := 0, off;
      if kflag {
        bfsz, boff := off / 0x100_0000, off % 0x100_0000;
      }
      ms := ms + [RawMember(U32(d, pos), U32(d, pos + 4), boff, bfsz)];
      pos := pos + 12;
    }
  }

  method ReadEnums(d: Bytes, start: nat, wide: bool, kflag: bool, vlen: nat) returns (es: seq<(nat, int)>, pos: nat)
    requires start + (if wide then 12 else 8) * vlen <= |d|
    ensures pos == start + (if wide then 12 else 8) * vlen && |es| == vlen
    ensures if wide then WideEnumsAt(d, start, kflag, es) else EnumsAt(d, start, es)
  {
    hide U32, Signed32, Enum64Value;
    es, pos := [], start;
    for i := 0 to vlen
      invariant pos == start + (if wide then 12 else 8) * i && |es| == i
      invariant if wide then WideEnumsAt(d, start, kflag, es) else EnumsAt(d, start, es)
    {
      if wide {
        es := es + [(U32(d, pos), Enum64Value(U32(d, pos + 4), U32(d, pos + 8), kflag))];
        pos := pos + 12;
      } else {
        es := es + [(U32(d, pos), Signed32(U32(d, pos + 4)))];
        pos := pos + 8;
      }
    }
  }

  method ReadParams(d: Bytes, start: nat, vlen: nat) returns (ps: seq<(nat, nat)>, pos: nat)
    requires start + 8 * vlen <= |d|
    ensures pos == start + 8 * vlen && |ps| == vlen && ParamsAt(d, start, ps)
  {
    hide U32;
    ps, pos := [], start;
    for i := 0 to vlen
      invariant pos == start + 8 * i && |ps| == i && ParamsAt(d, start, ps)
    {
      ps := ps + [(U32(d, pos), U32(d, pos + 4))];
      pos := pos + 8;
    }
  }

  /** The kind decides the tail, and the full record carries what both readers keep of it. */
  ghost predicate TailAgrees(f: Full, t: Tail) {
    && (if f.kind == K_ARRAY then t == ArrayTail(f.elem, f.nelems) else !t.ArrayTail? && f.elem == f.nelems == 0)
    && (if f.kind == K_STRUCT || f.kind == K_UNION then t.MemberTail? && SameMembers(f.members, t.members)
        else !t.MemberTail? && f.members == [])
    && (if f.kind == K_INT then t == IntTail(f.intEnc) else !t.IntTail?)
  }

  ghost predicate SameMembers(ms: seq<RawMember>, ns: seq<(nat, nat)>) {
    |ms| == |ns| && forall i :: 0 <= i < |ms| ==> ms[i].name == ns[i].0 && ms[i].typ == ns[i].1
  }

  /** The full record agrees with the compact one on everything both carry. */
  ghost predicate Agree(f: Full, c: Compact) {
    && f.at == c.at && f.kind == c.kind && f.name == c.name && f.vlen == c.vlen && TailAgrees(f, c.tail)
    && (if SizedKind(c.kind) then f.size == c.word && f.typ == 0 else f.typ == c.word && f.size == 0)
  }

  lemma NothingListed(d: Bytes, p: nat)
    requires p <= |d|
    ensures forall kflag :: MembersAt(d, p, kflag, []) && WideEnumsAt(d, p, kflag, [])
    ensures EnumsAt(d, p, []) && ParamsAt(d, p, [])
  {
  }

  lemma SignBit(enc: nat)
    ensures enc / 0x100_0000 % 2 == EncodingOf(enc) % 2
  {
    var x := enc / 0x100_0000;
    ModUnique(x, 2, 8 * (x / 16) + x % 16 / 2, x % 16 % 2);
  }

  lemma MembersAgree(d: Bytes, p: nat, kflag: bool, n: nat, ms: seq<RawMember>)
    requires p + 12 * n <= |d| && |ms| == n && MembersAt(d, p, kflag, ms)
    ensures SameMembers(ms, MemberPairs(d, p, n))
  {
    hide U32;
  }

  /** The integer descriptor and the lists a record's kind calls for are those behind its header. */
  ghost predicate BodyAt(d: Bytes, start: nat, t: Full) {
    && (t.kind == K_INT ==>
          start + 16 <= |d| && t.intBits == U32(d, start + 12) % 256 && (t.intSigned <==> t.intEnc % 2 == 1))
    && |t.members| == (if t.kind == K_STRUCT || t.kind == K_UNION then t.vlen else 0)
    && |t.params| == (if t.kind == K_FUNC_PROTO then t.vlen else 0)
    && |t.enums| == (if t.kind == K_ENUM || t.kind == K_ENUM64 then t.vlen else 0)
    && MembersAt(d, start + 12, t.kflag, t.members) && ParamsAt(d, start + 12, t.params)
    && (if t.kind == K_ENUM64 then WideEnumsAt(d, start + 12, t.kflag, t.enums) else EnumsAt(d, start + 12, t.enums))
  }

  predicate Headed(t: Full) {
    t == Full(t.at, t.kind, t.name, t.kflag, t.vlen, t.size, t.typ, 0, false, 0, 0, 0, [], [], [])
  }

  /** The same record up to what follows the header. */
  predicate SameHeader(t: Full, h: Full) {
    t == h.(intBits := t.intBits, intSigned := t.intSigned, intEnc := t.intEnc, elem := t.elem, nelems := t.nelems,
            members := t.members, enums := t.enums, params := t.params)
  }

  /** What follows the header of an integer or an array. */
  method ReadFixed(d: Bytes, start: nat, h: Full) returns (t: Full, pos: nat)
    requires start + 12 + Extra(h.kind) <= |d| && Headed(h) && (h.kind == K_INT || h.kind == K_ARRAY)
    ensures pos == start + 12 + Extra(h.kind) && SameHeader(t, h)
    ensures TailAgrees(t, TailAt(d, start, h.kind, h.vlen)) && BodyAt(d, start, t)
  {
    NothingListed(d, start + 12);
    hide U32, EncodingOf, MembersAt, EnumsAt, WideEnumsAt, ParamsAt;
    t, pos := h, start + 12;
    if h.kind == K_INT {
      var enc := U32(d, pos);
      SignBit(enc);
      t := t.(intBits := enc % 256, intSigned := enc / 0x100_0000 % 2 == 1, intEnc := EncodingOf(enc));
      pos := pos + 4;
    } else {
      t := t.(elem := U32(d, pos), nelems := U32(d, pos + 8));
      pos := pos + 12;
    }
  }

  /** What follows the header of a composite, an enum or a prototype. */
  method ReadLists(d: Bytes, start: nat, h: Full) returns (t: Full, pos: nat)
    requires start + 12 + PerVlen(h.kind) * h.vlen <= |d| && Headed(h)
    requires h.kind in {K_STRUCT, K_UNION, K_ENUM, K_ENUM64, K_FUNC_PROTO}
    ensures pos == start + 12 + PerVlen(h.kind) * h.vlen && SameHeader(t, h)
    ensures TailAgrees(t, TailAt(d, start, h.kind, h.vlen)) && BodyAt(d, start, t)
  {
    NothingListed(d, start + 12);
    hide U32, SameMembers, MemberPairs, MembersAt, EnumsAt, WideEnumsAt, ParamsAt;
    t, pos := h, start + 12;
    if h.kind == K_STRUCT || h.kind == K_UNION {
      var ms;
      ms, pos := ReadMembers(d, pos, h.kflag, h.vlen);
      t := t.(members := ms);
      MembersAgree(d, start + 12, h.kflag, h.vlen, ms);
    } else if h.kind == K_ENUM || h.kind == K_ENUM64 {
      var es;
      es, pos := ReadEnums(d, pos, h.kind == K_ENUM64, h.kflag, h.vlen);
      t := t.(enums := es);
    } else {
      var ps;
      ps, pos := ReadParams(d, pos, h.vlen);
      t := t.(params := ps);
    }
  }

  /** What follows any header. */
  method ReadTail(d: Bytes, start: nat, h: Full) returns (t: Full, pos: nat)
    requires start + 12 + Extra(h.kind) + PerVlen(h.kind) * h.vlen <= |d| && Headed(h)
    ensures pos == start + 12 + Extra(h.kind) + PerVlen(h.kind) * h.vlen && SameHeader(t, h)
    ensures TailAgrees(t, TailAt(d, start, h.kind, h.vlen)) && BodyAt(d, start, t)
  {
    if h.kind == K_INT || h.kind == K_ARRAY {
      hide TailAgrees, TailAt, BodyAt;
      t, pos := ReadFixed(d, start, h);
    } else if h.kind in {K_STRUCT, K_UNION, K_ENUM, K_ENUM64, K_FUNC_PROTO} {
      hide TailAgrees, TailAt, BodyAt;
      t, pos := ReadLists(d, start, h);
    } else {
      NothingListed(d, start + 12);
      hide U32, MembersAt, EnumsAt, WideEnumsAt, ParamsAt, VarIds, Signed32;
      t, pos := h, start + 12;
      if h.kind == K_VAR || h.kind == K_DECL_TAG {
        pos := pos + 4;
      } else if h.kind == K_DATASEC {
        pos := pos + 12 * h.vlen;
      }
    }
  }

  /** Reads one record field by field and leaves the cursor behind it. */
  method ReadRecord(d: Bytes, start: nat) returns (t: Full, pos: nat)
    requires Inside(d, start)
    ensures pos == start + RecordLen(d, start)
    ensures Agree(t, CompactAt(d, start)) && t.kflag == KflagOf(U32(d, start + 4)) && BodyAt(d, start, t)
  {
    hide U32, KindOf, VlenOf, KflagOf, TailAgrees, TailAt, BodyAt, Extra, PerVlen;
    var info := U32(d, start + 4);
    var kind, vlen, word := KindOf(info), VlenOf(info), U32(d, start + 8);
    var h := Full(start, kind, U32(d, start), KflagOf(info), vlen, 0, 0, 0, false, 0, 0, 0, [], [], []);
    if SizedKind(kind) { h := h.(size := word); } else { h := h.(typ := word); }
    t, pos := ReadTail(d, start, h);
  }

  /** Both tables have the same ids and agree record by record. */
  ghost predicate TablesAgree(full: map<nat, Full>, compact: map<nat, Compact>) {
    full.Keys == compact.Keys && forall tid: nat :: tid in full ==> Agree(full[tid], compact[tid])
  }

  method BtfInit(d: Bytes, start: nat, end: nat) returns (types: map<nat, Full>)
    requires end <= |d| && WellFormed(d, start, end)
    ensures forall compact :: CompactTable(d, Starts(d, start, end), compact) ==> TablesAgree(types, compact)
  {
    hide RecordLen, CompactAt;
    types := map[0 := FULL_VOID];
    var pos, tid := start, 1;
    ghost var done: seq<nat> := [];
    ghost var all := Starts(d, start, end);
    assert done + all == all;
    while pos + 12 <= end
      invariant WellFormed(d, pos, end) && tid == |done| + 1 && done + Starts(d, pos, end) == all
      invariant AllInside(d, done) && FullTable(d, done, types)
      decreases end - pos
    {
      var t, next := ReadRecord(d, pos);
      types := types[tid := t];
      done := done + [pos];
      pos := next;
      tid := tid + 1;
    }
    assert done == all;
    forall compact | CompactTable(d, all, compact)
      ensures TablesAgree(types, compact)
    {
      TablesMatch(d, all, types, compact);
    }
  }

  ghost predicate FullTable(d: Bytes, ps: seq<nat>, types: map<nat, Full>)
    requires AllInside(d, ps)
  {
    && (forall tid: nat :: tid in types <==> tid <= |ps|) && types[0] == FULL_VOID
    && forall i :: 0 <= i < |ps| ==> Agree(types[i + 1], CompactAt(d, ps[i]))
  }

  lemma TablesMatch(d: Bytes, ps: seq<nat>, full: map<nat, Full>, compact: map<nat, Compact>)
    requires AllInside(d, ps) && FullTable(d, ps, full) && CompactTable(d, ps, compact)
    ensures TablesAgree(full, compact)
  {
    hide CompactAt, RecordLen;
    forall tid: nat | tid in full
      ensures Agree(full[tid], compact[tid])
    {
      if tid > 0 {
        var i := tid - 1;
        assert Agree(full[i + 1], CompactAt(d, ps[i])) && compact[i + 1] == CompactAt(d, ps[i]);
      }
    }
  }

  // ----- sizes -----

  const MAX_FULL: nat := 64
  const MAX_COMPACT: nat := 32

  /** Whatever lies inside an array ranks below it. */
  ghost predicate Layered(types: map<nat, Compact>, rank: nat -> nat) {
    forall tid: nat :: tid in types ==>
      (types[tid].tail.ArrayTail? ==> rank(types[tid].tail.elem) < rank(tid))
        && (IsModifier(types[tid].kind) ==> rank(types[tid].word) <= rank(tid))
  }

  /** The object reader's size: one loop over modifiers, a recursive call for arrays. */
  function CompactSize(types: map<nat, Compact>, tid: nat, n: nat, ghost rank: nat -> nat): (s: Option<nat>)
    requires Layered(types, rank)
    decreases rank(tid), n
  {
    if n == 0 || tid !in types then None
    else
      var t := types[tid];
      if IsModifier(t.kind) then CompactSize(types, t.word, n - 1, rank)
      else if t.kind in {K_INT, K_STRUCT, K_UNION, K_ENUM, K_FLOAT, K_ENUM64} then Some(t.word)
      else if t.kind == K_PTR then Some(8)
      else if t.kind == K_ARRAY && t.tail.ArrayTail? then
        var es := CompactSize(types, t.tail.elem, MAX_COMPACT, rank);
        if es.None? then None else Some(es.value * t.tail.nelems)
      else None
  }

  method BtfTypeSize(types: map<nat, Compact>, tid: nat, ghost rank: nat -> nat) returns (s: Option<nat>)
    requires Layered(types, rank)
    ensures s == CompactSize(types, tid, MAX_COMPACT, rank)
    decreases rank(tid)
  {
    var cur := tid;
    for i := 0 to MAX_COMPACT
      invariant rank(cur) <= rank(tid)
      invariant CompactSize(types, cur, MAX_COMPACT - i, rank) == CompactSize(types, tid, MAX_COMPACT, rank)
    {
      if cur !in types { return None; }
      var t := types[cur];
      if IsModifier(t.kind) {
        cur := t.word;
        continue;
      }
      if t.kind in {K_INT, K_STRUCT, K_UNION, K_ENUM, K_FLOAT, K_ENUM64} { return Some(t.word); }
      if t.kind == K_PTR { return Some(8); }
      if t.kind == K_ARRAY && t.tail.ArrayTail? {
        var es := BtfTypeSize(types, t.tail.elem, rank);
        return if es.None? then None else Some(es.value * t.tail.nelems);
      }
      return None;
    }
    return None;
  }

  function FullResolve(types: map<nat, Full>, tid: nat, n: nat): (t: Full)
    decreases n
  {
    if n == 0 || tid !in types then FULL_VOID
    else if IsModifier(types[tid].kind) then FullResolve(types, types[tid].typ, n - 1)
    else types[tid]
  }

  ghost predicate FullLayered(types: map<nat, Full>, rank: nat -> nat) {
    forall tid: nat :: FullResolve(types, tid, MAX_FULL).kind == K_ARRAY ==>
      rank(FullResolve(types, tid, MAX_FULL).elem) < rank(tid)
  }

  /** The relocation engine's size: resolve first, then look at the kind. */
  function FullSize(types: map<nat, Full>, tid: nat, ghost rank: nat -> nat): (s: Option<nat>)
    requires FullLayered(types, rank)
    decreases rank(tid), 1
  {
    SizeOf(types, FullResolve(types, tid, MAX_FULL), rank)
  }

  function SizeOf(types: map<nat, Full>, t: Full, ghost rank: nat -> nat): (s: Option<nat>)
    requires FullLayered(types, rank)
    decreases if t.kind == K_ARRAY then rank(t.elem) + 1 else 0, 0
  {
    if t.kind in {K_INT, K_STRUCT, K_UNION, K_ENUM, K_ENUM64, K_FLOAT, K_DATASEC} then Some(t.size)
    else if t.kind == K_PTR then Some(8)
    else if t.kind == K_ARRAY then
      var es := FullSize(types, t.elem, rank);
      if es.None? then None else Some(es.value * t.nelems)
    else None
  }

  /** Fewer than n modifiers in a row, then a type that is not a data section; likewise for the elements
      of an array. */
  ghost predicate Plain(types: map<nat, Compact>, tid: nat, n: nat, rank: nat -> nat)
    requires Layered(types, rank)
    decreases rank(tid), n
  {
    n > 0 &&
    (tid in types ==>
      var t := types[tid];
      if IsModifier(t.kind) then Plain(types, t.word, n - 1, rank)
      else if t.kind == K_ARRAY && t.tail.ArrayTail? then Plain(types, t.tail.elem, MAX_COMPACT, rank)
      else t.kind != K_DATASEC)
  }

  /** Resolving from the compact side. */
  lemma {:induction false} LayersCarryOver(full: map<nat, Full>, compact: map<nat, Compact>, rank: nat -> nat,
                                           tid: nat, n: nat)
    requires TablesAgree(full, compact) && Layered(compact, rank)
    ensures var t := FullResolve(full, tid, n); t.kind == K_ARRAY ==> rank(t.elem) < rank(tid)
    decreases n
  {
    if n > 0 && tid in full && IsModifier(full[tid].kind) {
      assert Agree(full[tid], compact[tid]);
      LayersCarryOver(full, compact, rank, full[tid].typ, n - 1);
    }
  }

  lemma FullIsLayered(full: map<nat, Full>, compact: map<nat, Compact>, rank: nat -> nat)
    requires TablesAgree(full, compact) && Layered(compact, rank)
    ensures FullLayered(full, rank)
  {
    forall tid: nat
      ensures FullResolve(full, tid, MAX_FULL).kind == K_ARRAY ==>
                rank(FullResolve(full, tid, MAX_FULL).elem) < rank(tid)
    {
      LayersCarryOver(full, compact, rank, tid, MAX_FULL);
    }
  }

  /** Whenever the object reader has a size the engine has the same; and they differ exactly on sizeable
      types that are not plain. */
  lemma {:induction false} SizesAgreeWithin(full: map<nat, Full>, compact: map<nat, Compact>, rank: nat -> nat,
                                            tid: nat, n: nat, m: nat)
    requires TablesAgree(full, compact) && Layered(compact, rank) && FullLayered(full, rank) && n <= m
    ensures var a := SizeOf(full, FullResolve(full, tid, m), rank);
            var b := CompactSize(compact, tid, n, rank);
            && (b.Some? ==> a == b)
            && (Plain(compact, tid, n, rank) ==> a == b)
            && (a == b && a.Some? ==> Plain(compact, tid, n, rank))
    decreases rank(tid), n
  {
    if tid in compact {
      assert Agree(full[tid], compact[tid]);
      var t := compact[tid];
      if n > 0 {
        if IsModifier(t.kind) {
          SizesAgreeWithin(full, compact, rank, t.word, n - 1, m - 1);
        } else if t.kind == K_ARRAY {
          SizesAgreeWithin(full, compact, rank, t.tail.elem, MAX_COMPACT, MAX_FULL);
        }
      }
    }
  }

  /** The readers' sizes agree on every plain type, and differ on every other type the engine can size. */
  lemma SizesAgreeIff(full: map<nat, Full>, compact: map<nat, Compact>, rank: nat -> nat, tid: nat)
    requires TablesAgree(full, compact) && Layered(compact, rank)
    ensures FullLayered(full, rank)
    ensures var a, b := FullSize(full, tid, rank), CompactSize(compact, tid, MAX_COMPACT, rank);
            (a == b <==> (a.Some? ==> Plain(compact, tid, MAX_COMPACT, rank))) && (b.Some? ==> a == b)
  {
    FullIsLayered(full, compact, rank);
    hide FullResolve, CompactSize, Plain;
    SizesAgreeWithin(full, compact, rank, tid, MAX_COMPACT, MAX_FULL);
  }

  // ----- types the readers size differently -----

  function AnyRank(tid: nat): (r: nat) { 0 }

  /** A word whose bytes are known. */
  lemma WordIs(d: Bytes, p: nat, bs: seq<u8>)
    requires p + 4 <= |d| && |bs| == 4 && d[p] == bs[0] && d[p + 1] == bs[1] && d[p + 2] == bs[2] && d[p + 3] == bs[3]
    ensures U32(d, p) == LeValue(bs)
  {
    hide LeValue;
    assert d[p..p + 4] == bs;
  }

  lemma SmallWord(a: u8)
    ensures LeValue([a, 0, 0, 0]) == a
  {
    hide LeValue;
    LeStep([a, 0, 0, 0]);
    assert [a, 0, 0, 0][1..] == [0, 0, 0];
    ZeroBytes();
  }

  lemma TopWord(a: u8)
    ensures LeValue([0, 0, 0, a]) == 0x100_0000 * a
  {
    hide LeValue;
    LeStep([0, 0, 0, a]);
    LeStep([0, 0, a]);
    LeStep([0, a]);
    LeStep([a]);
    assert [0, 0, 0, a][1..] == [0, 0, a] && [0, 0, a][1..] == [0, a] && [0, a][1..] == [a] && [a][1..] == [];
    NoValue();
  }

  lemma ZeroBytes()
    ensures LeValue([0, 0, 0]) == 0
  {
    hide LeValue;
    LeStep([0, 0, 0]);
    LeStep([0, 0]);
    LeStep([0]);
    assert [0, 0, 0][1..] == [0, 0] && [0, 0][1..] == [0] && [0][1..] == [];
    NoValue();
  }

  lemma NoValue()
    ensures LeValue([]) == 0
  {
  }

  lemma InfoWord(kind: nat)
    requires kind < 32
    ensures KindOf(0x100_0000 * kind) == kind && VlenOf(0x100_0000 * kind) == 0
  {
  }

  /** One record: a data section of eight bytes, without variables. */
  const SECTION_BYTES: Bytes := [0, 0, 0, 0, 0, 0, 0, 15, 8, 0, 0, 0]

  function SectionTable(): (types: map<nat, Compact>) {
    map[0 := COMPACT_VOID, 1 := Compact(0, K_DATASEC, 0, 8, 0, VarTail([]))]
  }

  lemma SectionRead()
    ensures WellFormed(SECTION_BYTES, 0, 12)
            && CompactTable(SECTION_BYTES, Starts(SECTION_BYTES, 0, 12), SectionTable())
  {
    hide U32, LeValue, KindOf, VlenOf;
    var d := SECTION_BYTES;
    WordIs(d, 0, [0, 0, 0, 0]);
    WordIs(d, 4, [0, 0, 0, 15]);
    WordIs(d, 8, [8, 0, 0, 0]);
    SmallWord(0);
    SmallWord(8);
    TopWord(15);
    InfoWord(15);
    assert RecordLen(d, 0) == 12 && Starts(d, 0, 12) == [0];
    assert VarIds(d, 12, 0) == [];
    assert CompactAt(d, 0) == SectionTable()[1];
  }

  /** From these bytes the engine gets a size, the object reader does not. */
  lemma SectionSizesDiffer(full: map<nat, Full>)
    requires TablesAgree(full, SectionTable())
    ensures WellFormed(SECTION_BYTES, 0, 12)
            && CompactTable(SECTION_BYTES, Starts(SECTION_BYTES, 0, 12), SectionTable())
    ensures Layered(SectionTable(), AnyRank) && FullLayered(full, AnyRank)
    ensures FullSize(full, 1, AnyRank) == Some(8) && CompactSize(SectionTable(), 1, MAX_COMPACT, AnyRank) == None
  {
    SectionRead();
    hide WellFormed, CompactTable;
    FullIsLayered(full, SectionTable(), AnyRank);
    assert Agree(full[1], SectionTable()[1]);
  }

  const K_CONST: nat := 10
  const CHAIN: nat := 32

  /** 32 qualifiers, each of the next type, in front of a four-byte integer. */
  function ChainByte(i: nat): (b: u8)
    requires i < 12 * CHAIN + 16
  {
    if i < 12 * CHAIN then (if i % 12 == 7 then K_CONST else if i % 12 == 8 then i / 12 + 2 else 0)
    else if i == 12 * CHAIN + 7 then K_INT
    else if i == 12 * CHAIN + 8 then 4
    else 0
  }

  function ChainBytes(): (d: Bytes)
    ensures |d| == 12 * CHAIN + 16 && forall i :: 0 <= i < |d| ==> d[i] == ChainByte(i)
  {
    seq(12 * CHAIN + 16, i requires 0 <= i < 12 * CHAIN + 16 => ChainByte(i))
  }

  /** Record j of the chain, counted from 0. */
  function Link(j: nat): (t: Compact) {
    if j == CHAIN then Compact(12 * CHAIN, K_INT, 0, 4, 0, IntTail(0))
    else Compact(12 * j, K_CONST, 0, j + 2, 0, NoTail)
  }

  function ChainEntry(tid: nat): (t: Compact) { if tid == 0 then COMPACT_VOID else Link(tid - 1) }

  function ChainTable(): (types: map<nat, Compact>) {
    map tid: nat | 0 <= tid <= CHAIN + 1 :: ChainEntry(tid)
  }

  lemma LinkByte(j: nat, k: nat)
    requires j < CHAIN && k < 12
    ensures ChainByte(12 * j + k) == if k == 7 then K_CONST else if k == 8 then j + 2 else 0
  {
    ModUnique(12 * j + k, 12, j, k);
  }

  lemma LastByte(k: nat)
    requires k < 16
    ensures ChainByte(12 * CHAIN + k) == if k == 7 then K_INT else if k == 8 then 4 else 0
  {
  }

  /** The kind and the size-or-type of record j. */
  function LinkKind(j: nat): (k: u8) { if j == CHAIN then K_INT else K_CONST }
  function LinkWord(j: nat): (w: nat) { if j == CHAIN then 4 else j + 2 }

  lemma RecordByte(j: nat, k: nat)
    requires j <= CHAIN && (k < 12 || (j == CHAIN && k < 16))
    ensures ChainByte(12 * j + k) == if k == 7 then LinkKind(j) else if k == 8 then LinkWord(j) else 0
  {
    hide ChainByte;
    if j == CHAIN { LastByte(k); } else { LinkByte(j, k); }
  }

  lemma RecordWord(j: nat, k: nat, bs: seq<u8>)
    requires j <= CHAIN && (k <= 8 || (j == CHAIN && k <= 12)) && |bs| == 4
    requires forall i :: 0 <= i < 4 ==>
               bs[i] == if k + i == 7 then LinkKind(j) else if k + i == 8 then LinkWord(j) else 0
    ensures U32(ChainBytes(), 12 * j + k) == LeValue(bs)
  {
    hide ChainByte, U32, LeValue, LinkKind, LinkWord;
    RecordByte(j, k);
    RecordByte(j, k + 1);
    RecordByte(j, k + 2);
    RecordByte(j, k + 3);
    WordIs(ChainBytes(), 12 * j + k, bs);
  }

  lemma ChainWords(j: nat)
    requires j <= CHAIN
    ensures var d, p := ChainBytes(), 12 * j;
            && U32(d, p) == 0 && U32(d, p + 4) == 0x100_0000 * LinkKind(j) && U32(d, p + 8) == LinkWord(j)
            && (j == CHAIN ==> U32(d, p + 12) == 0)
  {
    hide U32, LeValue, ChainBytes;
    RecordWord(j, 0, [0, 0, 0, 0]);
    RecordWord(j, 4, [0, 0, 0, LinkKind(j)]);
    RecordWord(j, 8, [LinkWord(j), 0, 0, 0]);
    if j == CHAIN { RecordWord(j, 12, [0, 0, 0, 0]); }
    SmallWord(0);
    SmallWord(LinkWord(j));
    TopWord(LinkKind(j));
  }

  lemma ChainRecord(j: nat)
    requires j <= CHAIN
    ensures var d := ChainBytes();
            && RecordLen(d, 12 * j) == (if j == CHAIN then 16 else 12)
            && Inside(d, 12 * j) && CompactAt(d, 12 * j) == Link(j)
  {
    hide U32, KindOf, VlenOf, ChainBytes;
    ChainWords(j);
    InfoWord(LinkKind(j));
    assert EncodingOf(0) == 0;
    hide EncodingOf;
  }

  function Places(j: nat): (ps: seq<nat>)
    requires j <= CHAIN + 1
    ensures |ps| == CHAIN + 1 - j && forall k :: 0 <= k < |ps| ==> ps[k] == 12 * (j + k)
  {
    seq(CHAIN + 1 - j, k requires 0 <= k < CHAIN + 1 - j => 12 * (j + k))
  }

  lemma {:induction false} ChainStarts(j: nat)
    requires j <= CHAIN
    ensures var d := ChainBytes(); WellFormed(d, 12 * j, |d|) && Starts(d, 12 * j, |d|) == Places(j)
    decreases CHAIN - j
  {
    hide RecordLen, ChainBytes, WellFormed, Starts, Places, CompactAt, Link;
    var d := ChainBytes();
    ChainRecord(j);
    if j < CHAIN {
      ChainStarts(j + 1);
      StartsStep(d, 12 * j, |d|);
    } else {
      StartsEnd(d, 12 * j + 16, |d|);
      StartsStep(d, 12 * j, |d|);
    }
    PlacesStep(j);
  }

  lemma PlacesStep(j: nat)
    requires j <= CHAIN
    ensures Places(j) == [12 * j] + Places(j + 1) && Places(CHAIN + 1) == []
  {
  }

  lemma StartsStep(d: Bytes, p: nat, end: nat)
    requires end <= |d| && p + 12 <= end && p + RecordLen(d, p) <= |d| && WellFormed(d, p + RecordLen(d, p), end)
    ensures WellFormed(d, p, end) && Starts(d, p, end) == [p] + Starts(d, p + RecordLen(d, p), end)
  {
    hide RecordLen;
  }

  lemma StartsEnd(d: Bytes, p: nat, end: nat)
    requires end <= |d| && end < p + 12
    ensures WellFormed(d, p, end) && Starts(d, p, end) == []
  {
  }

  lemma ChainRead()
    ensures var d := ChainBytes(); WellFormed(d, 0, |d|) && CompactTable(d, Starts(d, 0, |d|), ChainTable())
  {
    hide WellFormed, Starts, CompactAt, Link, Inside, ChainBytes;
    var d := ChainBytes();
    ChainStarts(0);
    assert 12 * 0 == 0;
    var ps := Places(0);
    forall i | 0 <= i < |ps|
      ensures Inside(d, ps[i]) && ChainTable()[i + 1] == CompactAt(d, ps[i])
    {
      ChainRecord(i);
    }
  }

  lemma {:induction false} ChainResolves(full: map<nat, Full>, tid: nat, n: nat)
    requires TablesAgree(full, ChainTable()) && 1 <= tid <= CHAIN + 1 && n >= CHAIN + 2 - tid
    ensures CHAIN + 1 in full && FullResolve(full, tid, n) == full[CHAIN + 1]
    decreases n
  {
    assert Agree(full[tid], Link(tid - 1));
    if tid <= CHAIN { ChainResolves(full, tid + 1, n - 1); }
  }

  lemma {:induction false} ChainRunsOut(tid: nat, n: nat)
    requires 1 <= tid && tid + n <= CHAIN + 1 && Layered(ChainTable(), AnyRank)
    ensures CompactSize(ChainTable(), tid, n, AnyRank) == None
    decreases n
  {
    if n > 0 { ChainRunsOut(tid + 1, n - 1); }
  }

  /** From these bytes the engine sees through 32 qualifiers, the object reader gives up. */
  lemma ChainSizesDiffer(full: map<nat, Full>)
    requires TablesAgree(full, ChainTable())
    ensures var d := ChainBytes(); WellFormed(d, 0, |d|) && CompactTable(d, Starts(d, 0, |d|), ChainTable())
    ensures Layered(ChainTable(), AnyRank) && FullLayered(full, AnyRank)
    ensures FullSize(full, 1, AnyRank) == Some(4) && CompactSize(ChainTable(), 1, MAX_COMPACT, AnyRank) == None
  {
    ChainRead();
    hide WellFormed, CompactTable, ChainBytes, Starts;
    assert Layered(ChainTable(), AnyRank);
    FullIsLayered(full, ChainTable(), AnyRank);
    ChainResolves(full, 1, MAX_FULL);
    ChainRunsOut(1, MAX_COMPACT);
    assert Agree(full[CHAIN + 1], ChainTable()[CHAIN + 1]);
    hide FullResolve, CompactSize, Layered, FullLayered;
  }
}
