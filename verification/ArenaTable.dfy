/** The intrusive hash table: back-linked lists in the arena, and the finite map they stand for. */
module ArenaTable {
  import opened Words
  import opened ArenaHeap
  import opened ArenaAlloc

  // ----- one bucket -----

  function HeadAt(B: nat, i: nat): (a: nat) { B + 8 * i }

  /** The node pointer stored before position j: the j-th node, or null at the end. */
  function NodeAt(c: seq<nat>, j: nat): (a: nat) {
    if j < |c| then c[j] + NODE else 0
  }

  /** The word that holds the pointer to position j. */
  function SlotOf(B: nat, i: nat, c: seq<nat>, j: nat): (a: nat)
    requires j <= |c|
  {
    if j == 0 then HeadAt(B, i) else c[j - 1] + NODE
  }

  /** Element j is linked both ways. */
  ghost predicate Links(m: Mem, B: nat, i: nat, c: seq<nat>, j: nat)
    requires j < |c|
  {
    Rd(m, c[j] + NODE) == NodeAt(c, j + 1) && Rd(m, c[j] + NODE + 8) == SlotOf(B, i, c, j)
  }

  /** The element carries a key of this bucket, twice. */
  ghost predicate Keyed(m: Mem, i: nat, e: nat) {
    Rd(m, e) == Rd(m, e + KEY) && BucketIndex(Rd(m, e)) == i
  }

  ghost predicate Linked(m: Mem, B: nat, i: nat, c: seq<nat>, j: nat)
    requires j < |c|
  {
    Links(m, B, i, c, j) && Keyed(m, i, c[j])
  }

  /** The words of an element that its list does not own. */
  ghost predicate SamePair(m: Mem, m': Mem, e: nat) {
    Rd(m', e) == Rd(m, e) && Rd(m', e + KEY) == Rd(m, e + KEY) && Rd(m', e + VALUE) == Rd(m, e + VALUE)
  }

  ghost predicate ChainAt(m: Mem, B: nat, i: nat, c: seq<nat>) {
    Rd(m, HeadAt(B, i)) == NodeAt(c, 0) && forall j :: 0 <= j < |c| ==> Linked(m, B, i, c, j)
  }

  /** The elements of a bucket are apart from each other and from the bucket's head. */
  ghost predicate Apart(B: nat, i: nat, c: seq<nat>) {
    && (forall j, k :: 0 <= j < k < |c| ==> c[j] + ELEM_SIZE <= c[k] || c[k] + ELEM_SIZE <= c[j])
    && (forall j :: 0 <= j < |c| ==> c[j] > 0 && (HeadAt(B, i) + 8 <= c[j] || c[j] + ELEM_SIZE <= HeadAt(B, i)))
  }

  /** The address belongs to the bucket's head or to one of its elements. */
  ghost predicate InFoot(B: nat, i: nat, c: seq<nat>, a: nat) {
    a == HeadAt(B, i) || exists j :: 0 <= j < |c| && c[j] <= a < c[j] + ELEM_SIZE
  }

  ghost predicate SameOn(m: Mem, m': Mem, B: nat, i: nat, c: seq<nat>) {
    forall a: nat :: InFoot(B, i, c, a) ==> Rd(m', a) == Rd(m, a)
  }

  lemma ElemInFoot(B: nat, i: nat, c: seq<nat>, j: nat, d: nat)
    requires j < |c| && d < ELEM_SIZE
    ensures InFoot(B, i, c, c[j] + d)
  {
  }

  lemma ChainFrame(m: Mem, m': Mem, B: nat, i: nat, c: seq<nat>)
    requires ChainAt(m, B, i, c) && SameOn(m, m', B, i, c)
    ensures ChainAt(m', B, i, c) && Entries(m', c) == Entries(m, c)
  {
    hide Rd, Linked, InFoot;
    assert InFoot(B, i, c, HeadAt(B, i)) by { HeadInFoot(B, i, c); }
    forall j | 0 <= j < |c|
      ensures Linked(m', B, i, c, j) && Entries(m', c)[j] == Entries(m, c)[j]
    {
      LinkedFrame(m, m', B, i, c, j);
    }
  }

  lemma HeadInFoot(B: nat, i: nat, c: seq<nat>)
    ensures InFoot(B, i, c, HeadAt(B, i))
  {
  }

  lemma LinkedFrame(m: Mem, m': Mem, B: nat, i: nat, c: seq<nat>, j: nat)
    requires j < |c| && SameOn(m, m', B, i, c)
    ensures Linked(m, B, i, c, j) ==> Linked(m', B, i, c, j)
    ensures Rd(m', c[j]) == Rd(m, c[j]) && Rd(m', c[j] + VALUE) == Rd(m, c[j] + VALUE)
  {
    hide BucketIndex, Rd, InFoot;
    ElemInFoot(B, i, c, j, 0);
    ElemInFoot(B, i, c, j, KEY);
    ElemInFoot(B, i, c, j, VALUE);
    ElemInFoot(B, i, c, j, NODE);
    ElemInFoot(B, i, c, j, NODE + 8);
  }

  /** The key-value pairs of a bucket in list order. */
  ghost function Entries(m: Mem, c: seq<nat>): (es: seq<(int, int)>)
    ensures |es| == |c|
    ensures forall j :: 0 <= j < |c| ==> es[j] == (Rd(m, c[j]), Rd(m, c[j] + VALUE))
  {
    seq(|c|, j requires 0 <= j < |c| => (Rd(m, c[j]), Rd(m, c[j] + VALUE)))
  }

  // ----- list operations -----

  /** What adding e in front writes. */
  ghost predicate AddWrote(m: Mem, m': Mem, B: nat, i: nat, c: seq<nat>, e: nat) {
    && Rd(m', HeadAt(B, i)) == e + NODE
    && Rd(m', e + NODE) == NodeAt(c, 0) && Rd(m', e + NODE + 8) == HeadAt(B, i)
    && (c != [] ==> Rd(m', c[0] + NODE + 8) == e + NODE)
    && (forall a: nat :: !(a == HeadAt(B, i) || a == e + NODE || a == e + NODE + 8
                           || (c != [] && a == c[0] + NODE + 8)) ==>
          Rd(m', a) == Rd(m, a))
  }

  lemma AddHeadWrites(m: Mem, B: nat, i: nat, c: seq<nat>, e: nat)
    requires ChainAt(m, B, i, c) && Apart(B, i, [e] + c)
    ensures AddWrote(m, AddHead(m, e + NODE, HeadAt(B, i)), B, i, c, e)
  {
    hide BucketIndex;
    var c' := [e] + c;
    assert c'[0] == e;
    if c != [] {
      assert c'[1] == c[0];
      assert c'[0] + ELEM_SIZE <= c'[1] || c'[1] + ELEM_SIZE <= c'[0];
    }
  }

  lemma AddedFront(m: Mem, m': Mem, B: nat, i: nat, c: seq<nat>, e: nat)
    requires AddWrote(m, m', B, i, c, e) && Apart(B, i, [e] + c)
    ensures Links(m', B, i, [e] + c, 0) && SamePair(m, m', e)
  {
    hide Rd;
    var c' := [e] + c;
    assert c'[0] == e;
    if c != [] {
      assert c'[1] == c[0];
      assert c'[0] + ELEM_SIZE <= c'[1] || c'[1] + ELEM_SIZE <= c'[0];
    }
  }

  lemma AddedBehind(m: Mem, m': Mem, B: nat, i: nat, c: seq<nat>, e: nat, j: nat)
    requires AddWrote(m, m', B, i, c, e) && Apart(B, i, [e] + c) && j < |c| && Links(m, B, i, c, j)
    ensures Links(m', B, i, [e] + c, j + 1) && SamePair(m, m', c[j])
  {
    hide Rd;
    var c' := [e] + c;
    assert c'[0] == e && c'[j + 1] == c[j];
    assert HeadAt(B, i) + 8 <= c'[j + 1] || c'[j + 1] + ELEM_SIZE <= HeadAt(B, i);
    assert c'[0] + ELEM_SIZE <= c'[j + 1] || c'[j + 1] + ELEM_SIZE <= c'[0];
    if j > 0 {
      assert c'[1] == c[0];
      assert c'[1] + ELEM_SIZE <= c'[j + 1] || c'[j + 1] + ELEM_SIZE <= c'[1];
      assert c'[j] == c[j - 1];
    }
    assert NodeAt(c', j + 2) == NodeAt(c, j + 1);
    hide Apart;
  }

  /** Adding an element in front. */
  lemma AddHeadChain(m: Mem, B: nat, i: nat, c: seq<nat>, e: nat)
    requires ChainAt(m, B, i, c) && Apart(B, i, [e] + c)
    requires Keyed(m, i, e)
    ensures ChainAt(AddHead(m, e + NODE, HeadAt(B, i)), B, i, [e] + c)
    ensures Entries(AddHead(m, e + NODE, HeadAt(B, i)), [e] + c) == [(Rd(m, e), Rd(m, e + VALUE))] + Entries(m, c)
  {
    hide AddHead, Rd, Links, Keyed, Apart;
    var m' := AddHead(m, e + NODE, HeadAt(B, i));
    var c' := [e] + c;
    AddHeadWrites(m, B, i, c, e);
    forall j | 0 <= j < |c'|
      ensures Linked(m', B, i, c', j)
      ensures Entries(m', c')[j] == ([(Rd(m, e), Rd(m, e + VALUE))] + Entries(m, c))[j]
    {
      if j == 0 {
        AddedFront(m, m', B, i, c, e);
        KeyedSame(m, m', i, e);
      } else {
        assert Linked(m, B, i, c, j - 1);
        AddedBehind(m, m', B, i, c, e, j - 1);
        assert c'[j] == c[j - 1];
        KeyedSame(m, m', i, c[j - 1]);
      }
      hide AddWrote, ChainAt;
    }
    assert Rd(m', HeadAt(B, i)) == NodeAt(c', 0);
  }

  lemma KeyedSame(m: Mem, m': Mem, i: nat, e: nat)
    requires Keyed(m, i, e) && SamePair(m, m', e)
    ensures Keyed(m', i, e)
  {
    hide Rd, BucketIndex;
  }

  function Without(c: seq<nat>, j: nat): (c': seq<nat>)
    requires j < |c|
  {
    c[..j] + c[j + 1..]
  }

  /** What unlinking position j writes, apart from the unlinked element itself. */
  ghost predicate UnlinkWrote(m: Mem, m': Mem, B: nat, i: nat, c: seq<nat>, j: nat)
    requires j < |c|
  {
    && Rd(m', SlotOf(B, i, c, j)) == NodeAt(c, j + 1)
    && (j + 1 < |c| ==> Rd(m', c[j + 1] + NODE + 8) == SlotOf(B, i, c, j))
    && (forall a: nat :: !(a == SlotOf(B, i, c, j) || a == c[j] + NODE || a == c[j] + NODE + 8
                           || (j + 1 < |c| && a == c[j + 1] + NODE + 8)) ==>
          Rd(m', a) == Rd(m, a))
  }

  /** The four words unlinking writes, when they are apart. */
  lemma UnlinkWords(m: Mem, n: nat, next: nat, slot: nat)
    requires Rd(m, n) == next && Rd(m, n + 8) == slot && slot != n && slot != n + 8
    requires next > 0 ==> next + 8 != n && next != n && next + 8 != slot
    ensures var m' := Unlink(m, n);
            && Rd(m', slot) == next && (next > 0 ==> Rd(m', next + 8) == slot)
            && forall a: nat :: a != slot && a != n && a != n + 8 && !(next > 0 && a == next + 8) ==>
                 Rd(m', a) == Rd(m, a)
  {
  }

  lemma UnlinkWrites(m: Mem, B: nat, i: nat, c: seq<nat>, j: nat)
    requires ChainAt(m, B, i, c) && Apart(B, i, c) && j < |c|
    ensures UnlinkWrote(m, Unlink(m, c[j] + NODE), B, i, c, j)
  {
    hide BucketIndex, Unlink, Rd;
    assert Linked(m, B, i, c, j);
    SlotApart(B, i, c, j);
    hide Apart, ChainAt, HeadAt;
    UnlinkWords(m, c[j] + NODE, NodeAt(c, j + 1), SlotOf(B, i, c, j));
  }

  /** The slot before an element is apart from the element and from its successor. */
  lemma SlotApart(B: nat, i: nat, c: seq<nat>, j: nat)
    requires Apart(B, i, c) && j < |c|
    ensures var s := SlotOf(B, i, c, j);
            && s != c[j] + NODE && s != c[j] + NODE + 8
            && (j + 1 < |c| ==> s != c[j + 1] + NODE + 8 && c[j + 1] + 8 != c[j] && c[j + 1] != c[j])
  {
    if j > 0 { assert c[j - 1] + ELEM_SIZE <= c[j] || c[j] + ELEM_SIZE <= c[j - 1]; }
    if j + 1 < |c| {
      assert c[j] + ELEM_SIZE <= c[j + 1] || c[j + 1] + ELEM_SIZE <= c[j];
      if j > 0 { assert c[j - 1] + ELEM_SIZE <= c[j + 1] || c[j + 1] + ELEM_SIZE <= c[j - 1]; }
    }
  }

  /** The words of another element once position j is unlinked. */
  lemma UnlinkedAt(m: Mem, m': Mem, B: nat, i: nat, c: seq<nat>, j: nat, k: nat)
    requires Apart(B, i, c) && j < |c| && k < |c| - 1 && UnlinkWrote(m, m', B, i, c, j)
    requires Links(m, B, i, c, if k < j then k else k + 1)
    ensures var x := Without(c, j)[k];
            x == c[if k < j then k else k + 1] && Links(m', B, i, Without(c, j), k) && SamePair(m, m', x)
  {
    hide Rd, Apart, HeadAt, Without;
    var o := if k < j then k else k + 1;
    WithoutLinks(B, i, c, j, k);
    KeptApart(B, i, c, j, o, 0);
    KeptApart(B, i, c, j, o, KEY);
    KeptApart(B, i, c, j, o, VALUE);
    KeptApart(B, i, c, j, o, NODE);
    KeptApart(B, i, c, j, o, NODE + 8);
  }

  /** Neighbours once position j is gone. */
  lemma WithoutLinks(B: nat, i: nat, c: seq<nat>, j: nat, k: nat)
    requires j < |c| && k < |c| - 1
    ensures var o := if k < j then k else k + 1;
            && |Without(c, j)| == |c| - 1 && Without(c, j)[k] == c[o]
            && NodeAt(Without(c, j), k + 1) == (if o + 1 == j then NodeAt(c, j + 1) else NodeAt(c, o + 1))
            && SlotOf(B, i, Without(c, j), k) == if o == j + 1 then SlotOf(B, i, c, j) else SlotOf(B, i, c, o)
  {
  }

  /** The words of another element are not among those unlinking writes, except its own links to the gap. */
  lemma KeptApart(B: nat, i: nat, c: seq<nat>, j: nat, o: nat, d: nat)
    requires Apart(B, i, c) && j < |c| && o < |c| && o != j && d < ELEM_SIZE
    ensures var a := c[o] + d;
            && (a == SlotOf(B, i, c, j) ==> j == o + 1 && d == NODE)
            && a != c[j] + NODE && a != c[j] + NODE + 8
            && (j + 1 < |c| && a == c[j + 1] + NODE + 8 ==> o == j + 1 && d == NODE + 8)
  {
    var x := c[o];
    assert x + ELEM_SIZE <= c[j] || c[j] + ELEM_SIZE <= x;
    if j > 0 && o != j - 1 { assert x + ELEM_SIZE <= c[j - 1] || c[j - 1] + ELEM_SIZE <= x; }
    if j + 1 < |c| && o != j + 1 { assert x + ELEM_SIZE <= c[j + 1] || c[j + 1] + ELEM_SIZE <= x; }
  }

  /** Unlinking an element anywhere in the list. */
  lemma UnlinkChain(m: Mem, B: nat, i: nat, c: seq<nat>, j: nat)
    requires ChainAt(m, B, i, c) && Apart(B, i, c) && j < |c|
    ensures ChainAt(Unlink(m, c[j] + NODE), B, i, Without(c, j))
    ensures Entries(Unlink(m, c[j] + NODE), Without(c, j)) == Entries(m, c)[..j] + Entries(m, c)[j + 1..]
  {
    hide Unlink, Rd, Links, Keyed, Apart, HeadAt, UnlinkWrote, Without;
    var m', c' := Unlink(m, c[j] + NODE), Without(c, j);
    UnlinkWrites(m, B, i, c, j);
    UnlinkedHead(m, m', B, i, c, j);
    assert |c'| == |c| - 1 by { WithoutLength(c, j); }
    forall k | 0 <= k < |c'|
      ensures Linked(m', B, i, c', k)
      ensures Entries(m', c')[k] == (Entries(m, c)[..j] + Entries(m, c)[j + 1..])[k]
    {
      var o := if k < j then k else k + 1;
      assert Linked(m, B, i, c, o);
      UnlinkedAt(m, m', B, i, c, j, k);
      KeyedSame(m, m', i, c[o]);
    }
  }

  lemma WithoutLength(c: seq<nat>, j: nat)
    requires j < |c|
    ensures |Without(c, j)| == |c| - 1
  {
  }

  lemma UnlinkedHead(m: Mem, m': Mem, B: nat, i: nat, c: seq<nat>, j: nat)
    requires ChainAt(m, B, i, c) && Apart(B, i, c) && j < |c| && UnlinkWrote(m, m', B, i, c, j)
    ensures Rd(m', HeadAt(B, i)) == NodeAt(Without(c, j), 0)
  {
    hide BucketIndex, Rd, Linked;
    if j > 0 { HeadApart(B, i, c, j); }
  }

  lemma HeadApart(B: nat, i: nat, c: seq<nat>, j: nat)
    requires Apart(B, i, c) && 0 < j < |c|
    ensures HeadAt(B, i) != SlotOf(B, i, c, j) && HeadAt(B, i) != c[j] + NODE && HeadAt(B, i) != c[j] + NODE + 8
    ensures j + 1 < |c| ==> HeadAt(B, i) != c[j + 1] + NODE + 8
  {
  }

  // ----- lookup -----

  /** First position from j on, within limit entries, that holds the key. */
  function PositionFrom(es: seq<(int, int)>, key: int, j: nat, limit: nat): (p: Option<nat>)
    requires j <= |es|
    ensures p.Some? ==> j <= p.value < |es| && p.value < j + limit && es[p.value].0 == key
    ensures forall k :: j <= k < |es| && k < j + limit && (p.Some? ==> k < p.value) ==> es[k].0 != key
    decreases limit
  {
    if limit == 0 || j == |es| then None
    else if es[j].0 == key then Some(j)
    else PositionFrom(es, key, j + 1, limit - 1)
  }

  function Position(es: seq<(int, int)>, key: int, limit: nat): (p: Option<nat>) {
    PositionFrom(es, key, 0, limit)
  }

  /** The pointer walk finds the element at that position. */
  lemma {:induction false} WalkFinds(m: Mem, B: nat, i: nat, c: seq<nat>, key: int, j: nat, limit: nat)
    requires ChainAt(m, B, i, c) && j <= |c|
    ensures var p := PositionFrom(Entries(m, c), key, j, limit);
            Walk(m, NodeAt(c, j), key, limit) == if p.Some? then c[p.value] else 0
    decreases limit
  {
    hide BucketIndex;
    if limit > 0 && j < |c| {
      assert Linked(m, B, i, c, j);
      WalkFinds(m, B, i, c, key, j + 1, limit - 1);
    }
  }

  // ----- the whole table -----

  ghost predicate ElemsOk(L: Layout, i: nat)
    requires i < |L.chains|
  {
    var c := L.chains[i];
    && (forall j :: 0 <= j < |c| ==> c[j] in L.live && L.live[c[j]] == ELEM_SIZE && c[j] in L.home && L.home[c[j]] == i)
    && (forall j, k :: 0 <= j < k < |c| ==> c[j] != c[k])
  }

  ghost predicate TableInv(m: Mem, L: Layout) {
    && |L.chains| == N_BUCKETS && L.home.Keys <= L.live.Keys
    && forall i :: 0 <= i < N_BUCKETS ==> ElemsOk(L, i) && ChainAt(m, L.buckets, i, L.chains[i])
  }

  ghost predicate Inv(h: Heap, L: Layout) {
    AllocInv(h, L) && TableInv(h.mem, L)
  }

  /** Two blocks do not overlap. */
  lemma BlocksApart(L: Layout, x: nat, y: nat)
    requires Geometry(L) && x in L.live && y in L.live && x != y
    ensures x + L.live[x] <= y || y + L.live[y] <= x
  {
    hide PageOf, Aligned8, PageAligned;
    if x < y {} else { assert y < x; }
  }

  /** A block does not reach the bucket array. */
  lemma BlockOffBuckets(L: Layout, x: nat)
    requires Geometry(L) && x in L.live
    ensures x > 0 && (x + L.live[x] <= L.buckets || L.buckets + 2 * PAGE <= x)
  {
    hide PageOf, Aligned8, PageAligned;
    assert BlockOk(L, x);
    PageBounds(x);
    assert PageOk(L, PageOf(x));
  }

  /** Count words lie outside blocks and buckets. */
  lemma CountWordOutside(L: Layout, x: nat, p: nat)
    requires Geometry(L) && x in L.live && PageOk(L, p)
    ensures !(x <= p + COUNT_AT < x + L.live[x])
    ensures !(L.buckets <= p + COUNT_AT < L.buckets + 2 * PAGE)
  {
    hide PageOf, Aligned8, PageAligned;
    assert BlockOk(L, x);
    PageBounds(x);
    assert PageOk(L, PageOf(x));
    if p != PageOf(x) { PagesApart(p, PageOf(x)); }
  }

  lemma HeadInBuckets(B: nat, i: nat)
    requires i < N_BUCKETS
    ensures B <= HeadAt(B, i) && HeadAt(B, i) + 8 <= B + 2 * PAGE
  {
  }

  lemma ChainApart(L: Layout, i: nat)
    requires Geometry(L) && i < |L.chains| == N_BUCKETS && ElemsOk(L, i)
    ensures Apart(L.buckets, i, L.chains[i])
  {
    var c := L.chains[i];
    HeadInBuckets(L.buckets, i);
    hide Geometry;
    forall j, k | 0 <= j < k < |c|
      ensures c[j] + ELEM_SIZE <= c[k] || c[k] + ELEM_SIZE <= c[j]
    {
      BlocksApart(L, c[j], c[k]);
    }
    forall j | 0 <= j < |c|
      ensures c[j] > 0 && (HeadAt(L.buckets, i) + 8 <= c[j] || c[j] + ELEM_SIZE <= HeadAt(L.buckets, i))
    {
      BlockOffBuckets(L, c[j]);
    }
  }

  /** A new block is apart from every bucket's elements. */
  lemma NewBlockApart(L: Layout, i: nat, e: nat)
    requires Geometry(L) && i < |L.chains| == N_BUCKETS && ElemsOk(L, i) && e in L.live && L.live[e] == ELEM_SIZE
    requires e !in L.chains[i]
    ensures Apart(L.buckets, i, [e] + L.chains[i])
  {
    ChainApart(L, i);
    var c := L.chains[i];
    var c' := [e] + c;
    HeadInBuckets(L.buckets, i);
    BlockOffBuckets(L, e);
    hide Geometry;
    forall j | 0 <= j < |c|
      ensures e + ELEM_SIZE <= c[j] || c[j] + ELEM_SIZE <= e
    {
      assert c[j] in c;
      BlocksApart(L, e, c[j]);
    }
    assert c'[0] == e && forall j :: 0 < j < |c'| ==> c'[j] == c[j - 1];
  }

  // ----- what other buckets do not notice -----

  /** The address belongs to no bucket but possibly i. */
  ghost predicate Private(L: Layout, i: int, a: nat)
  {
    forall k :: 0 <= k < |L.chains| && k != i ==> !InFoot(L.buckets, k, L.chains[k], a)
  }

  lemma OthersKeep(m: Mem, m': Mem, L: Layout, i: int, k: nat)
    requires TableInv(m, L) && k < N_BUCKETS && k != i
    requires forall a: nat :: Rd(m', a) == Rd(m, a) || Private(L, i, a)
    ensures ChainAt(m', L.buckets, k, L.chains[k]) && Entries(m', L.chains[k]) == Entries(m, L.chains[k])
  {
    hide Rd, InFoot, Linked;
    assert ChainAt(m, L.buckets, k, L.chains[k]);
    ChainFrame(m, m', L.buckets, k, L.chains[k]);
  }

  /** Count words are nobody's. */
  lemma CountWordPrivate(L: Layout, m: Mem, i: int, p: nat)
    requires Geometry(L) && TableInv(m, L) && PageOk(L, p)
    ensures Private(L, i, p + COUNT_AT)
  {
    hide Geometry, ChainAt, PageOk;
    forall k | 0 <= k < |L.chains|
      ensures !InFoot(L.buckets, k, L.chains[k], p + COUNT_AT)
    {
      var c := L.chains[k];
      assert ElemsOk(L, k);
      HeadInBuckets(L.buckets, k);
      CountOffBuckets(L, p);
      forall j | 0 <= j < |c|
        ensures !(c[j] <= p + COUNT_AT < c[j] + ELEM_SIZE)
      {
        CountWordOutside(L, c[j], p);
      }
    }
  }

  lemma CountOffBuckets(L: Layout, p: nat)
    requires PageOk(L, p)
    ensures !(L.buckets <= p + COUNT_AT < L.buckets + 2 * PAGE)
  {
  }

  /** The words of a block that is in no other bucket are private to its own. */
  lemma BlockPrivate(L: Layout, m: Mem, i: int, b: nat, a: nat)
    requires Geometry(L) && TableInv(m, L) && b in L.live && b <= a < b + L.live[b]
    requires b in L.home ==> L.home[b] == i
    ensures Private(L, i, a)
  {
    hide Geometry, ChainAt;
    BlockOffBuckets(L, b);
    forall k | 0 <= k < |L.chains| && k != i
      ensures !InFoot(L.buckets, k, L.chains[k], a)
    {
      var c := L.chains[k];
      assert ElemsOk(L, k);
      HeadInBuckets(L.buckets, k);
      forall j | 0 <= j < |c|
        ensures !(c[j] <= a < c[j] + ELEM_SIZE)
      {
        BlocksApart(L, c[j], b);
      }
    }
  }

  lemma HeadPrivate(L: Layout, m: Mem, i: nat)
    requires Geometry(L) && TableInv(m, L) && i < N_BUCKETS
    ensures Private(L, i, HeadAt(L.buckets, i))
  {
    hide Geometry, ChainAt;
    forall k | 0 <= k < |L.chains| && k != i
      ensures !InFoot(L.buckets, k, L.chains[k], HeadAt(L.buckets, i))
    {
      var c := L.chains[k];
      assert ElemsOk(L, k);
      HeadInBuckets(L.buckets, i);
      forall j | 0 <= j < |c|
        ensures !(c[j] <= HeadAt(L.buckets, i) < c[j] + ELEM_SIZE)
      {
        BlockOffBuckets(L, c[j]);
      }
    }
  }
}
