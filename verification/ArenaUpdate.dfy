/** Table updates keep every invariant of allocator and table, and change one bucket as a bounded
    move-to-front replacement does. */
module ArenaUpdate {
  import opened Words
  import opened ArenaHeap
  import opened ArenaAlloc
  import opened ArenaTable

  /** Every bucket's pairs, in list order. */
  ghost function Table(m: Mem, L: Layout): (t: seq<seq<(int, int)>>)
    ensures |t| == |L.chains|
    ensures forall i :: 0 <= i < |t| ==> t[i] == Entries(m, L.chains[i])
  {
    seq(|L.chains|, i requires 0 <= i < |L.chains| => Entries(m, L.chains[i]))
  }

  ghost predicate CountsKept(m: Mem, m': Mem, L: Layout) {
    forall p :: p in L.pages ==> Rd(m', p + COUNT_AT) == Rd(m, p + COUNT_AT)
  }

  lemma CountsKeepAlloc(h: Heap, m': Mem, L: Layout)
    requires AllocInv(h, L) && CountsKept(h.mem, m', L)
    ensures AllocInv(h.(mem := m'), L)
  {
    hide Geometry, Rd, On, PageOf, Aligned8;
  }

  // ----- a new block -----

  lemma AllocTable(h: Heap, L: Layout, grant: nat)
    requires Inv(h, L) && GrantOk(L, grant)
    ensures var (h', e) := Alloc(h, ELEM_SIZE, grant);
            if e == 0 then h' == h
            else
              var L' := WithBlock(L, h'.curPage, e, ELEM_SIZE);
              && Inv(h', L') && Table(h'.mem, L') == Table(h.mem, L)
              && e !in L.live && PageOf(e) == h'.curPage
  {
    hide Alloc, Geometry, CountsOk, SlotOk, PageOf, Rd, RoundUp, On, Private;
    var (h', e) := Alloc(h, ELEM_SIZE, grant);
    AllocKeeps(h, L, ELEM_SIZE, grant);
    assert RoundUp(ELEM_SIZE) == ELEM_SIZE by { RoundUpIsMultiple(ELEM_SIZE); }
    if e != 0 {
      var L' := WithBlock(L, h'.curPage, e, ELEM_SIZE);
      assert h'.curPage in L'.pages;
      assert PageOk(L', h'.curPage) by { PagesAreOk(L', h'.curPage); }
      CountWordPrivate(L, h.mem, -1, h'.curPage);
      UntouchedTable(h.mem, h'.mem, L, L');
    }
  }

  lemma PagesAreOk(L: Layout, p: nat)
    requires Geometry(L) && p in L.pages
    ensures PageOk(L, p)
  {
  }

  /** Words of no bucket changed, and no element went away: the table is as before. */
  lemma UntouchedTable(m: Mem, m': Mem, L: Layout, L': Layout)
    requires TableInv(m, L) && L'.buckets == L.buckets && L'.chains == L.chains && L'.home == L.home
    requires forall x :: x in L.home ==> x in L'.live && L'.live[x] == L.live[x]
    requires forall a: nat :: Rd(m', a) == Rd(m, a) || Private(L, -1, a)
    ensures TableInv(m', L') && Table(m', L') == Table(m, L)
  {
    hide Rd, Private, ChainAt;
    forall k | 0 <= k < N_BUCKETS
      ensures ElemsOk(L', k) && ChainAt(m', L.buckets, k, L.chains[k])
              && Entries(m', L.chains[k]) == Entries(m, L.chains[k])
    {
      OthersKeep(m, m', L, -1, k);
      assert ElemsOk(L, k);
    }
    assert Table(m', L') == Table(m, L);
  }

  // ----- linking it in -----

  ghost function WithElem(L: Layout, i: nat, e: nat): (L': Layout)
    requires i < |L.chains|
  {
    L.(chains := L.chains[i := [e] + L.chains[i]], home := L.home[e := i])
  }

  lemma FillWrites(m: Mem, e: nat, key: int, value: int)
    ensures var m' := Fill(m, e, key, value);
            && Rd(m', e) == key && Rd(m', e + KEY) == key && Rd(m', e + VALUE) == value
            && forall a: nat :: a != e && a != e + KEY && a != e + VALUE ==> Rd(m', a) == Rd(m, a)
  {
  }

  /** The new element holds the pair and stands in front of its bucket. */
  lemma LinkTable(m: Mem, L: Layout, i: nat, e: nat, key: int, value: int)
    requires Geometry(L) && TableInv(m, L) && i == BucketIndex(key)
    requires e in L.live && L.live[e] == ELEM_SIZE && e !in L.home
    ensures var m' := AddHead(Fill(m, e, key, value), e + NODE, HeadAt(L.buckets, i));
            && TableInv(m', WithElem(L, i, e)) && CountsKept(m, m', L)
            && Table(m', WithElem(L, i, e)) == Table(m, L)[i := [(key, value)] + Table(m, L)[i]]
  {
    hide BucketIndex, Geometry, Fill, AddHead, Rd, Linked;
    var B, c := L.buckets, L.chains[i];
    var m1 := Fill(m, e, key, value);
    var m' := AddHead(m1, e + NODE, HeadAt(B, i));
    var L' := WithElem(L, i, e);
    assert ElemsOk(L, i) && e !in c;
    FillWrites(m, e, key, value);
    FilledBucket(m, m1, L, i, e);
    NewBlockApart(L, i, e);
    AddHeadWrites(m1, B, i, c, e);
    AddHeadChain(m1, B, i, c, e);
    LinkedWrites(m, m1, m', L, i, e);
    hide Apart, AddWrote;
    forall k | 0 <= k < N_BUCKETS
      ensures ElemsOk(L', k) && ChainAt(m', B, k, L'.chains[k])
      ensures Entries(m', L'.chains[k]) == if k == i then [(key, value)] + Entries(m, c) else Entries(m, L.chains[k])
    {
      assert ElemsOk(L, k);
      if k != i { OthersKeep(m, m', L, i, k); }
      hide Private;
    }
    hide ChainAt, ElemsOk;
    OneBucket(m, m', L, L', i, [(key, value)] + Entries(m, c));
  }

  lemma OneBucket(m: Mem, m': Mem, L: Layout, L': Layout, i: nat, es: seq<(int, int)>)
    requires i < |L.chains| == |L'.chains|
    requires forall k :: 0 <= k < |L.chains| ==>
               Entries(m', L'.chains[k]) == if k == i then es else Entries(m, L.chains[k])
    ensures Table(m', L') == Table(m, L)[i := es]
  {
    hide Entries;
  }

  /** Filling the new block leaves the bucket alone. */
  lemma FilledBucket(m: Mem, m1: Mem, L: Layout, i: nat, e: nat)
    requires Geometry(L) && TableInv(m, L) && i < N_BUCKETS && e in L.live && L.live[e] == ELEM_SIZE && e !in L.home
    requires forall a: nat :: a != e && a != e + KEY && a != e + VALUE ==> Rd(m1, a) == Rd(m, a)
    ensures ChainAt(m1, L.buckets, i, L.chains[i]) && Entries(m1, L.chains[i]) == Entries(m, L.chains[i])
  {
    hide Rd, Geometry, ChainAt, Private;
    BlockPrivate(L, m, -1, e, e);
    BlockPrivate(L, m, -1, e, e + KEY);
    BlockPrivate(L, m, -1, e, e + VALUE);
    OthersKeep(m, m1, L, -1, i);
  }

  /** Linking writes only the bucket's own words and the new block. */
  lemma LinkedWrites(m: Mem, m1: Mem, m': Mem, L: Layout, i: nat, e: nat)
    requires Geometry(L) && TableInv(m, L) && i < N_BUCKETS && e in L.live && L.live[e] == ELEM_SIZE && e !in L.home
    requires forall a: nat :: a != e && a != e + KEY && a != e + VALUE ==> Rd(m1, a) == Rd(m, a)
    requires AddWrote(m1, m', L.buckets, i, L.chains[i], e)
    ensures CountsKept(m, m', L) && forall a: nat :: Rd(m', a) == Rd(m, a) || Private(L, i, a)
  {
    hide Rd, Geometry, ChainAt, Private;
    var c := L.chains[i];
    assert ElemsOk(L, i);
    forall a: nat | e <= a < e + ELEM_SIZE
      ensures Private(L, i, a)
    {
      BlockPrivate(L, m, i, e, a);
    }
    HeadPrivate(L, m, i);
    if c != [] { BlockPrivate(L, m, i, c[0], c[0] + NODE + 8); }
    forall p | p in L.pages
      ensures Rd(m', p + COUNT_AT) == Rd(m, p + COUNT_AT)
    {
      PagesAreOk(L, p);
      CountWordOutside(L, e, p);
      HeadInBuckets(L.buckets, i);
      if c != [] { CountWordOutside(L, c[0], p); }
    }
  }

  // ----- taking the old one out -----

  ghost function WithoutElem(L: Layout, i: nat, j: nat): (L': Layout)
    requires i < |L.chains| && j < |L.chains[i]|
  {
    L.(chains := L.chains[i := Without(L.chains[i], j)], home := L.home - {L.chains[i][j]})
  }

  lemma UnlinkTable(m: Mem, L: Layout, i: nat, j: nat)
    requires Geometry(L) && TableInv(m, L) && i < N_BUCKETS && j < |L.chains[i]|
    ensures var m' := Unlink(m, L.chains[i][j] + NODE);
            && TableInv(m', WithoutElem(L, i, j)) && CountsKept(m, m', L)
            && Table(m', WithoutElem(L, i, j)) == Table(m, L)[i := Table(m, L)[i][..j] + Table(m, L)[i][j + 1..]]
  {
    hide BucketIndex, Geometry, Unlink, Rd, Linked;
    var B, c := L.buckets, L.chains[i];
    var m', L' := Unlink(m, c[j] + NODE), WithoutElem(L, i, j);
    assert ElemsOk(L, i) && ChainAt(m, B, i, c);
    ChainApart(L, i);
    UnlinkWrites(m, B, i, c, j);
    UnlinkChain(m, B, i, c, j);
    UnlinkedWrites(m, m', L, i, j);
    hide Apart, UnlinkWrote;
    WithoutElems(L, i, j);
    hide Without;
    forall k | 0 <= k < N_BUCKETS
      ensures ElemsOk(L', k) && ChainAt(m', B, k, L'.chains[k])
      ensures Entries(m', L'.chains[k]) ==
              if k == i then Entries(m, c)[..j] + Entries(m, c)[j + 1..] else Entries(m, L.chains[k])
    {
      if k != i { OthersKeep(m, m', L, i, k); }
      hide Private;
    }
    assert Table(m', L') == Table(m, L)[i := Table(m, L)[i][..j] + Table(m, L)[i][j + 1..]];
  }

  lemma WithoutElems(L: Layout, i: nat, j: nat)
    requires |L.chains| == N_BUCKETS && (forall k :: 0 <= k < N_BUCKETS ==> ElemsOk(L, k)) && i < N_BUCKETS
             && j < |L.chains[i]|
    ensures forall k :: 0 <= k < N_BUCKETS ==> ElemsOk(WithoutElem(L, i, j), k)
  {
    var L' := WithoutElem(L, i, j);
    var c := L.chains[i];
    assert ElemsOk(L, i);
    forall k | 0 <= k < N_BUCKETS
      ensures ElemsOk(L', k)
    {
      assert ElemsOk(L, k);
      var d := L'.chains[k];
      if k == i {
        assert forall o :: 0 <= o < |d| ==> d[o] == c[if o < j then o else o + 1];
      }
    }
  }

  lemma UnlinkedWrites(m: Mem, m': Mem, L: Layout, i: nat, j: nat)
    requires Geometry(L) && TableInv(m, L) && i < N_BUCKETS && j < |L.chains[i]|
    requires UnlinkWrote(m, m', L.buckets, i, L.chains[i], j)
    ensures CountsKept(m, m', L) && forall a: nat :: Rd(m', a) == Rd(m, a) || Private(L, i, a)
  {
    hide Rd, Geometry, ChainAt, Private;
    var c := L.chains[i];
    assert ElemsOk(L, i);
    HeadPrivate(L, m, i);
    BlockPrivate(L, m, i, c[j], c[j] + NODE);
    BlockPrivate(L, m, i, c[j], c[j] + NODE + 8);
    if j > 0 { BlockPrivate(L, m, i, c[j - 1], c[j - 1] + NODE); }
    if j + 1 < |c| { BlockPrivate(L, m, i, c[j + 1], c[j + 1] + NODE + 8); }
    forall p | p in L.pages
      ensures Rd(m', p + COUNT_AT) == Rd(m, p + COUNT_AT)
    {
      PagesAreOk(L, p);
      CountWordOutside(L, c[j], p);
      HeadInBuckets(L.buckets, i);
      if j > 0 { CountWordOutside(L, c[j - 1], p); }
      if j + 1 < |c| { CountWordOutside(L, c[j + 1], p); }
    }
  }

  // ----- releasing it -----

  lemma FreeTable(h: Heap, L: Layout, b: nat)
    requires Inv(h, L) && b in L.live && b !in L.home
    requires PageOf(b) == h.curPage ==> On(L, h.curPage) != {b}
    ensures var (h', back) := Free(h, b);
            var L' := WithoutBlock(L, b, back);
            Inv(h', L') && Table(h'.mem, L') == Table(h.mem, L) && (back ==> PageOf(b) != h.curPage)
  {
    hide Free, Geometry, CountsOk, SlotOk, PageOf, Rd, On, Private, PageOk;
    var (h', back) := Free(h, b);
    FreeKeeps(h, L, b);
    BlockPageOk(L, b);
    CountWordPrivate(L, h.mem, -1, PageOf(b));
    UntouchedTable(h.mem, h'.mem, L, WithoutBlock(L, b, back));
  }

  lemma BlockPageOk(L: Layout, b: nat)
    requires Geometry(L) && b in L.live
    ensures PageOk(L, PageOf(b))
  {
    hide PageOf, PageOk;
    assert BlockOk(L, b);
    PagesAreOk(L, PageOf(b));
  }

  // ----- one update -----

  /** The table after an update: the first entry in reach that holds the key goes, the new one leads. */
  ghost function Replace(t: seq<seq<(int, int)>>, key: int, value: int, limit: nat): (t': seq<seq<(int, int)>>)
    requires |t| == N_BUCKETS
  {
    var i := BucketIndex(key);
    t[i := [(key, value)] + Dropped(t[i], Position(t[i], key, limit))]
  }

  ghost function Dropped(es: seq<(int, int)>, p: Option<nat>): (rest: seq<(int, int)>)
    requires p.Some? ==> p.value < |es|
  {
    if p.Some? then es[..p.value] + es[p.value + 1..] else es
  }

  /** Every live block but those kept for other uses is an element of the table: nothing is leaked. */
  ghost predicate Owned(L: Layout, kept: set<nat>) {
    forall b :: b in L.live && b !in kept ==> b in L.home && L.home[b] < |L.chains| && b in L.chains[L.home[b]]
  }

  /** The layout after an update. */
  ghost function NextLayout(h: Heap, L: Layout, key: int, value: int, grant: nat, limit: nat): (L': Layout)
    requires |L.chains| == N_BUCKETS
    ensures |L'.chains| == N_BUCKETS
  {
    var i := BucketIndex(key);
    var (h1, e) := Alloc(h, ELEM_SIZE, grant);
    var p := Position(Entries(h.mem, L.chains[i]), key, limit);
    if e == 0 then L
    else
      var linked := WithElem(WithBlock(L, h1.curPage, e, ELEM_SIZE), i, e);
      if p.None? then linked
      else WithoutBlock(WithoutElem(linked, i, p.value + 1), L.chains[i][p.value],
                        Update(h, L.buckets, key, value, grant, limit).2)
  }

  lemma OwnedLinked(L: Layout, kept: set<nat>, page: nat, i: nat, e: nat)
    requires Owned(L, kept) && i < |L.chains|
    ensures Owned(WithElem(WithBlock(L, page, e, ELEM_SIZE), i, e), kept)
  {
    var L' := WithElem(WithBlock(L, page, e, ELEM_SIZE), i, e);
    forall b | b in L'.live && b !in kept
      ensures b in L'.home && L'.home[b] < |L'.chains| && b in L'.chains[L'.home[b]]
    {
      assert L'.chains[i] == [e] + L.chains[i];
      assert b != e ==> b in L.live;
    }
  }

  lemma OwnedUnlinked(L: Layout, kept: set<nat>, i: nat, j: nat, back: bool)
    requires Owned(L, kept) && i < |L.chains| && j < |L.chains[i]|
    ensures Owned(WithoutBlock(WithoutElem(L, i, j), L.chains[i][j], back), kept)
  {
    var c := L.chains[i];
    var L' := WithoutBlock(WithoutElem(L, i, j), c[j], back);
    forall b | b in L'.live && b !in kept
      ensures b in L'.home && L'.home[b] < |L'.chains| && b in L'.chains[L'.home[b]]
    {
      if L.home[b] == i {
        var k :| 0 <= k < |c| && c[k] == b;
        assert L'.chains[i][if k < j then k else k - 1] == b;
      }
    }
  }

  lemma LinkStep(h: Heap, L: Layout, key: int, value: int, e: nat)
    requires Inv(h, L) && e in L.live && L.live[e] == ELEM_SIZE && e !in L.home
    ensures var i := BucketIndex(key);
            var h' := h.(mem := AddHead(Fill(h.mem, e, key, value), e + NODE, HeadAt(L.buckets, i)));
            && Inv(h', WithElem(L, i, e))
            && Table(h'.mem, WithElem(L, i, e)) == Table(h.mem, L)[i := [(key, value)] + Table(h.mem, L)[i]]
  {
    hide TableInv, BucketIndex, AddHead, Fill, Geometry, CountsKept, CountsOk, SlotOk, Table, HeadAt;
    var i := BucketIndex(key);
    var m' := AddHead(Fill(h.mem, e, key, value), e + NODE, HeadAt(L.buckets, i));
    assert |L.chains| == N_BUCKETS by { BucketCount(h.mem, L); }
    LinkTable(h.mem, L, i, e, key, value);
    CountsKeepAlloc(h, m', L);
    SamePlaces(h.(mem := m'), L, WithElem(L, i, e));
  }

  lemma BucketCount(m: Mem, L: Layout)
    requires TableInv(m, L)
    ensures |L.chains| == N_BUCKETS
  {
  }

  /** The allocator's invariant does not speak of chains. */
  lemma SamePlaces(h: Heap, L: Layout, L': Layout)
    requires AllocInv(h, L) && L'.buckets == L.buckets && L'.pages == L.pages && L'.live == L.live
    ensures AllocInv(h, L')
  {
    hide PageOf, Rd, Aligned8, PageAligned;
    assert forall p :: On(L', p) == On(L, p);
  }

  lemma DropStep(h: Heap, L: Layout, i: nat, j: nat)
    requires Inv(h, L) && i < N_BUCKETS && j < |L.chains[i]|
    requires PageOf(L.chains[i][j]) == h.curPage ==> On(L, h.curPage) != {L.chains[i][j]}
    ensures var b := L.chains[i][j];
            var (h', back) := Free(h.(mem := Unlink(h.mem, b + NODE)), b);
            var L' := WithoutBlock(WithoutElem(L, i, j), b, back);
            && h'.curPage == h.curPage && Inv(h', L') && (back ==> PageOf(b) != h.curPage)
            && Table(h'.mem, L') == Table(h.mem, L)[i := Table(h.mem, L)[i][..j] + Table(h.mem, L)[i][j + 1..]]
  {
    hide BucketIndex, Unlink, Geometry, CountsKept, CountsOk, SlotOk, Table, PageOf, On, ChainAt, Without;
    var b := L.chains[i][j];
    var m', L1 := Unlink(h.mem, b + NODE), WithoutElem(L, i, j);
    assert ElemsOk(L, i);
    UnlinkTable(h.mem, L, i, j);
    CountsKeepAlloc(h, m', L);
    SamePlaces(h.(mem := m'), L, L1);
    SameOthers(L, L1, h.curPage);
    FreeTable(h.(mem := m'), L1, b);
  }

  lemma SameOthers(L: Layout, L': Layout, p: nat)
    requires L'.live == L.live
    ensures On(L', p) == On(L, p)
  {
  }

  /** One update keeps the whole invariant, changes the table as Replace does, gives back no page that
      is still carved, and leaks nothing; a failed one changes nothing. */
  lemma UpdateKeeps(h: Heap, L: Layout, kept: set<nat>, key: int, value: int, grant: nat, limit: nat)
    requires Inv(h, L) && GrantOk(L, grant)
    ensures var (h', rc, back) := Update(h, L.buckets, key, value, grant, limit);
            var L' := NextLayout(h, L, key, value, grant, limit);
            && L'.buckets == L.buckets && Inv(h', L') && (Owned(L, kept) ==> Owned(L', kept))
            && (rc == 0 ==> Table(h'.mem, L') == Replace(Table(h.mem, L), key, value, limit) && h'.curPage in L'.pages)
            && (rc != 0 ==> rc == -ENOMEM && !back && h' == h && L' == L)
            && (!back ==> L.pages <= L'.pages)
  {
    hide AllocInv, TableInv, BucketIndex, Alloc, Free, AddHead, Unlink, Fill, Walk, PositionFrom, PageOf, Owned,
         Geometry, On, Table, Without, Entries;
    var i := BucketIndex(key);
    BucketCount(h.mem, L);
    var c := L.chains[i];
    var (h1, e) := Alloc(h, ELEM_SIZE, grant);
    var p := Position(Entries(h.mem, c), key, limit);
    WalkIsPosition(h.mem, L, key, limit);
    AllocTable(h, L, grant);
    if e != 0 {
      LinkNew(h, L, kept, key, value, grant);
      if p.Some? { DropOld(h, L, kept, key, value, grant, limit); }
    }
  }

  /** Heap and layout once the new element leads its bucket. */
  ghost function AfterLink(h: Heap, L: Layout, key: int, value: int, grant: nat): (r: (Heap, Layout))
    requires |L.chains| == N_BUCKETS
  {
    var i := BucketIndex(key);
    var (h1, e) := Alloc(h, ELEM_SIZE, grant);
    (h1.(mem := AddHead(Fill(h1.mem, e, key, value), e + NODE, HeadAt(L.buckets, i))),
     WithElem(WithBlock(L, h1.curPage, e, ELEM_SIZE), i, e))
  }

  lemma LinkNew(h: Heap, L: Layout, kept: set<nat>, key: int, value: int, grant: nat)
    requires Inv(h, L) && GrantOk(L, grant) && |L.chains| == N_BUCKETS && Alloc(h, ELEM_SIZE, grant).1 != 0
    ensures var (h2, L2) := AfterLink(h, L, key, value, grant);
            var i, e, t := BucketIndex(key), Alloc(h, ELEM_SIZE, grant).1, Table(h.mem, L);
            && Inv(h2, L2) && Table(h2.mem, L2) == t[i := [(key, value)] + t[i]] && (Owned(L, kept) ==> Owned(L2, kept))
            && e !in L.live && e in L2.live && PageOf(e) == h2.curPage && L2.pages == L.pages + {h2.curPage}
  {
    hide AllocInv, TableInv, BucketIndex, Alloc, AddHead, Fill, PageOf, Owned, Table;
    var (h1, e) := Alloc(h, ELEM_SIZE, grant);
    AllocTable(h, L, grant);
    var L1 := WithBlock(L, h1.curPage, e, ELEM_SIZE);
    HomeIsLive(h.mem, L, e);
    LinkStep(h1, L1, key, value, e);
    if Owned(L, kept) { OwnedLinked(L, kept, h1.curPage, BucketIndex(key), e); }
  }

  lemma DropOld(h: Heap, L: Layout, kept: set<nat>, key: int, value: int, grant: nat, limit: nat)
    requires Inv(h, L) && GrantOk(L, grant) && |L.chains| == N_BUCKETS && Alloc(h, ELEM_SIZE, grant).1 != 0
    requires Position(Entries(h.mem, L.chains[BucketIndex(key)]), key, limit).Some?
    ensures var i := BucketIndex(key);
            var p := Position(Entries(h.mem, L.chains[i]), key, limit).value;
            var b := L.chains[i][p];
            var (h2, L2) := AfterLink(h, L, key, value, grant);
            var (h3, back) := Free(h2.(mem := Unlink(h2.mem, b + NODE)), b);
            var L3 := WithoutBlock(WithoutElem(L2, i, p + 1), b, back);
            && b > 0 && h3.curPage == h2.curPage && Inv(h3, L3) && (back ==> PageOf(b) != h2.curPage)
               && (Owned(L, kept) ==> Owned(L3, kept))
            && Table(h3.mem, L3) == Replace(Table(h.mem, L), key, value, limit)
  {
    hide TableInv, BucketIndex, Alloc, Free, AddHead, Unlink, Fill, PositionFrom, PageOf, Owned, On, Table, Without,
         Entries, CountsOk, SlotOk, Geometry;
    var i := BucketIndex(key);
    var p := Position(Entries(h.mem, L.chains[i]), key, limit).value;
    var b := L.chains[i][p];
    var (h2, L2) := AfterLink(h, L, key, value, grant);
    LinkNew(h, L, kept, key, value, grant);
    assert L2.chains[i][p + 1] == b;
    InChain(h.mem, L, i, p);
    NotAlone(L2, Alloc(h, ELEM_SIZE, grant).1, h2.curPage, b);
    DropStep(h2, L2, i, p + 1);
    if Owned(L, kept) { OwnedUnlinked(L2, kept, i, p + 1, Free(h2.(mem := Unlink(h2.mem, b + NODE)), b).1); }
    BehindNew(Table(h.mem, L)[i], (key, value), p);
  }

  lemma BehindNew(es: seq<(int, int)>, e: (int, int), p: nat)
    requires p < |es|
    ensures ([e] + es)[..p + 1] + ([e] + es)[p + 2..] == [e] + Dropped(es, Some(p))
  {
  }

  lemma HomeIsLive(m: Mem, L: Layout, e: nat)
    requires TableInv(m, L) && e !in L.live
    ensures e !in L.home
  {
  }

  lemma InChain(m: Mem, L: Layout, i: nat, j: nat)
    requires Geometry(L) && TableInv(m, L) && i < N_BUCKETS && j < |L.chains[i]|
    ensures L.chains[i][j] in L.live && L.chains[i][j] > 0
  {
    hide Geometry, ChainAt;
    assert ElemsOk(L, i);
    ChainApart(L, i);
  }

  lemma NotAlone(L: Layout, e: nat, p: nat, b: nat)
    requires e in L.live && PageOf(e) == p && e != b
    ensures On(L, p) != {b}
  {
    hide PageOf;
    assert e in On(L, p);
  }

  /** The walk from the bucket's head reaches the element at the key's position. */
  lemma WalkIsPosition(m: Mem, L: Layout, key: int, limit: nat)
    requires TableInv(m, L)
    ensures var i := BucketIndex(key);
            var p := Position(Entries(m, L.chains[i]), key, limit);
            Walk(m, Rd(m, HeadAt(L.buckets, i)), key, limit) == if p.Some? then L.chains[i][p.value] else 0
  {
    hide BucketIndex, PositionFrom, Walk, Rd;
    var i := BucketIndex(key);
    assert ChainAt(m, L.buckets, i, L.chains[i]);
    WalkFinds(m, L.buckets, i, L.chains[i], key, 0, limit);
  }
}
