/** What the page-fragment allocator keeps: disjoint aligned blocks below the count word, exact counts,
    and no page given back while it still holds a block or is being carved. */
module ArenaAlloc {
  import opened ArenaHeap

  /** Where things are: the two bucket pages, the pages being carved, the live blocks with their
      sizes, the elements of every bucket in list order, and each element's bucket. */
  datatype Layout = Layout(buckets: nat, pages: set<nat>, live: map<nat, nat>, chains: seq<seq<nat>>,
                           home: map<nat, nat>)

  predicate Aligned8(a: int) { a % 8 == 0 }

  predicate PageAligned(a: nat) { a % PAGE == 0 }

  /** Pages are aligned and apart from the bucket array. */
  ghost predicate PageOk(L: Layout, p: nat) {
    p > 0 && PageAligned(p) && (p + PAGE <= L.buckets || L.buckets + 2 * PAGE <= p)
  }

  ghost predicate BlockOk(L: Layout, b: nat)
    requires b in L.live
  {
    && L.live[b] > 0 && Aligned8(L.live[b]) && Aligned8(b)
    && PageOf(b) in L.pages && b + L.live[b] <= PageOf(b) + COUNT_AT
  }

  ghost function On(L: Layout, p: nat): (bs: set<nat>) {
    set b | b in L.live && PageOf(b) == p
  }

  ghost predicate Geometry(L: Layout) {
    && L.buckets > 0 && PageAligned(L.buckets)
    && (forall p :: p in L.pages ==> PageOk(L, p))
    && (forall b :: b in L.live ==> BlockOk(L, b))
    && (forall b, b' :: b in L.live && b' in L.live && b < b' ==> b + L.live[b] <= b')
  }

  /** The count word of a page is the number of its live blocks, and it is not zero. */
  ghost predicate CountsOk(m: Mem, L: Layout) {
    forall p :: p in L.pages ==> Rd(m, p + COUNT_AT) == |On(L, p)| && On(L, p) != {}
  }

  /** The slot names a page in use, with nothing live below its offset. */
  ghost predicate SlotOk(h: Heap, L: Layout) {
    h.curPage != 0 ==>
      && h.curPage in L.pages && 0 <= h.curOffset <= COUNT_AT && Aligned8(h.curOffset)
      && forall b :: b in L.live && PageOf(b) == h.curPage ==> h.curPage + h.curOffset <= b
  }

  ghost predicate AllocInv(h: Heap, L: Layout) {
    Geometry(L) && CountsOk(h.mem, L) && SlotOk(h, L)
  }

  /** What the arena may answer to a request for a page. */
  ghost predicate GrantOk(L: Layout, grant: nat) {
    grant == 0 || (PageOk(L, grant) && grant !in L.pages)
  }

  // ----- allocation -----

  ghost function WithBlock(L: Layout, page: nat, b: nat, size: nat): (L': Layout) {
    L.(pages := L.pages + {page}, live := L.live[b := size])
  }

  lemma PageOfWithin(p: nat, off: nat)
    requires PageAligned(p) && off < PAGE
    ensures PageOf(p + off) == p
  {
  }

  lemma PageBounds(a: nat)
    ensures PageOf(a) <= a < PageOf(a) + PAGE && PageAligned(PageOf(a))
  {
  }

  /** Carving below everything live on the page gives a disjoint block. */
  lemma CarveKeeps(h: Heap, L: Layout, n: nat, offset: nat)
    requires Geometry(L) && n > 0 && Aligned8(n) && Aligned8(offset) && h.curPage != 0 && PageOk(L, h.curPage)
    requires offset + n <= COUNT_AT
    requires forall b :: b in L.live && PageOf(b) == h.curPage ==> h.curPage + offset + n <= b
    requires forall p :: p in L.pages && p != h.curPage ==> Rd(h.mem, p + COUNT_AT) == |On(L, p)| && On(L, p) != {}
    requires Rd(h.mem, h.curPage + COUNT_AT) == |On(L, h.curPage)|
    ensures var (h', b) := Carve(h, offset);
            var L' := WithBlock(L, h.curPage, b, n);
            b != 0 && b !in L.live && PageOf(b) == h.curPage && AllocInv(h', L')
  {
    var (h', b) := Carve(h, offset);
    var page := h.curPage;
    var L' := WithBlock(L, page, b, n);
    PageOfWithin(page, offset);
    AlignedIn(page, offset);
    hide PageOf, Aligned8, PageAligned;
    CarveGeometry(L, page, b, n);
    CarveCounts(h, L, page, b, n);
    CarveSlot(h, L, n, offset);
    hide SlotOk, Geometry, CountsOk, PageOk, BlockOk, Rd, On;
  }

  lemma CarveSlot(h: Heap, L: Layout, n: nat, offset: nat)
    requires offset <= COUNT_AT && Aligned8(offset)
    requires forall b :: b in L.live && PageOf(b) == h.curPage ==> h.curPage + offset <= b
    ensures SlotOk(Carve(h, offset).0, WithBlock(L, h.curPage, Carve(h, offset).1, n))
  {
    hide PageOf, Aligned8;
  }

  lemma CarveCounts(h: Heap, L: Layout, page: nat, b: nat, n: nat)
    requires b !in L.live && PageOf(b) == page
    requires forall p :: p in L.pages && p != page ==> Rd(h.mem, p + COUNT_AT) == |On(L, p)| && On(L, p) != {}
    requires Rd(h.mem, page + COUNT_AT) == |On(L, page)|
    ensures CountsOk(h.mem[page + COUNT_AT := Rd(h.mem, page + COUNT_AT) + 1], WithBlock(L, page, b, n))
  {
    hide PageOf;
    var m' := h.mem[page + COUNT_AT := Rd(h.mem, page + COUNT_AT) + 1];
    var L' := WithBlock(L, page, b, n);
    forall p | p in L'.pages
      ensures Rd(m', p + COUNT_AT) == |On(L', p)| && On(L', p) != {}
    {
      OnWith(L, page, b, n, p);
      hide On, WithBlock;
    }
  }

  lemma OnWith(L: Layout, page: nat, b: nat, n: nat, p: nat)
    requires b !in L.live && PageOf(b) == page
    ensures b !in On(L, p)
    ensures On(WithBlock(L, page, b, n), p) == if p == page then On(L, p) + {b} else On(L, p)
  {
    hide PageOf;
  }

  lemma OnWithout(L: Layout, b: nat, back: bool, p: nat)
    requires b in L.live
    ensures On(WithoutBlock(L, b, back), p) == if p == PageOf(b) then On(L, p) - {b} else On(L, p)
    ensures b in On(L, p) <==> p == PageOf(b)
  {
    hide PageOf;
  }

  lemma AlignedIn(page: nat, offset: nat)
    requires PageAligned(page) && Aligned8(offset)
    ensures Aligned8(page + offset)
  {
    assert page == 8 * (512 * (page / PAGE));
  }

  lemma CarveGeometry(L: Layout, page: nat, b: nat, n: nat)
    requires Geometry(L) && PageOk(L, page) && n > 0 && Aligned8(n) && Aligned8(b)
    requires PageOf(b) == page && b + n <= page + COUNT_AT
    requires forall x :: x in L.live && PageOf(x) == page ==> b + n <= x
    ensures b !in L.live && Geometry(WithBlock(L, page, b, n))
  {
    hide PageOf, Aligned8, PageAligned;
    var L' := WithBlock(L, page, b, n);
    PageBounds(b);
    forall x | x in L.live
      ensures b + n <= x || x + L.live[x] <= b
    {
      assert BlockOk(L, x);
      PageBounds(x);
      if PageOf(x) != page { PagesApart(PageOf(x), page); }
    }
    forall x | x in L'.live
      ensures BlockOk(L', x)
    {
      if x != b { assert BlockOk(L, x); }
    }
  }

  lemma PagesApart(p: nat, q: nat)
    requires PageAligned(p) && PageAligned(q) && p != q
    ensures p + PAGE <= q || q + PAGE <= p
  {
    assert p == PAGE * (p / PAGE) && q == PAGE * (q / PAGE);
  }

  /** Whatever is asked for, allocation keeps the invariant, and a refusal changes nothing. */
  lemma AllocKeeps(h: Heap, L: Layout, size: nat, grant: nat)
    requires AllocInv(h, L) && GrantOk(L, grant) && size > 0
    ensures var (h', b) := Alloc(h, size, grant);
            if b == 0 then h' == h
            else
              && AllocInv(h', WithBlock(L, h'.curPage, b, RoundUp(size)))
              && b !in L.live && PageOf(b) == h'.curPage
              && (forall a: nat :: a != h'.curPage + COUNT_AT ==> Rd(h'.mem, a) == Rd(h.mem, a))
  {
    hide RoundUp, PageOf, Aligned8, AllocInv, WithBlock, Rd, Carve, Refill;
    var n := RoundUp(size);
    RoundedSize(size);
    if n < COUNT_AT {
      if h.curPage != 0 && h.curOffset - n >= 0 {
        CurrentKeeps(h, L, n);
      } else if grant != 0 {
        GrantKeeps(h, L, n, grant);
      }
    }
  }

  lemma RoundedSize(size: nat)
    requires size > 0
    ensures Aligned8(RoundUp(size)) && size <= RoundUp(size)
  {
    hide RoundUp;
    RoundUpIsMultiple(size);
  }

  lemma AlignedDifference(x: int, y: int)
    ensures Aligned8(x) && Aligned8(y) ==> Aligned8(x - y)
    ensures Aligned8(COUNT_AT)
  {
  }

  lemma CurrentKeeps(h: Heap, L: Layout, n: nat)
    requires AllocInv(h, L) && h.curPage != 0 && n > 0 && n <= h.curOffset && Aligned8(n)
    ensures var (h', b) := Carve(h, h.curOffset - n);
            && b != 0 && b !in L.live && PageOf(b) == h'.curPage && AllocInv(h', WithBlock(L, h'.curPage, b, n))
            && (forall a: nat :: a != h'.curPage + COUNT_AT ==> Rd(h'.mem, a) == Rd(h.mem, a))
  {
    hide PageOf, Aligned8, PageAligned, On;
    AlignedDifference(h.curOffset, n);
    CarveKeeps(h, L, n, h.curOffset - n);
  }

  lemma GrantKeeps(h: Heap, L: Layout, n: nat, grant: nat)
    requires AllocInv(h, L) && GrantOk(L, grant) && grant != 0 && 0 < n < COUNT_AT && Aligned8(n)
    ensures var (h', b) := Carve(Refill(h, grant), COUNT_AT - n);
            && b != 0 && b !in L.live && PageOf(b) == h'.curPage && AllocInv(h', WithBlock(L, h'.curPage, b, n))
            && (forall a: nat :: a != h'.curPage + COUNT_AT ==> Rd(h'.mem, a) == Rd(h.mem, a))
  {
    AlignedDifference(COUNT_AT, n);
    EmptyPage(L, grant);
    OnMembers(L, grant);
    hide PageOf, Aligned8, PageAligned, On;
    CarveKeeps(Refill(h, grant), L, n, COUNT_AT - n);
  }

  lemma OnMembers(L: Layout, p: nat)
    ensures forall b :: b in On(L, p) <==> b in L.live && PageOf(b) == p
  {
  }

  lemma EmptyPage(L: Layout, p: nat)
    requires Geometry(L) && p !in L.pages
    ensures On(L, p) == {}
  {
    forall b | b in L.live
      ensures PageOf(b) != p
    {
      assert BlockOk(L, b);
    }
  }

  // ----- release -----

  ghost function WithoutBlock(L: Layout, b: nat, back: bool): (L': Layout) {
    L.(live := L.live - {b}, pages := if back then L.pages - {PageOf(b)} else L.pages)
  }

  /** Releasing a block keeps the invariant as long as it is not the only one on the page being carved;
      the page goes back exactly when no live block is left on it. */
  lemma FreeKeeps(h: Heap, L: Layout, b: nat)
    requires AllocInv(h, L) && b in L.live
    requires PageOf(b) == h.curPage ==> On(L, h.curPage) != {b}
    ensures var (h', back) := Free(h, b);
            && AllocInv(h', WithoutBlock(L, b, back))
            && (back <==> On(L, PageOf(b)) == {b})
            && (back ==> PageOf(b) != h.curPage)
            && (forall a: nat :: a != PageOf(b) + COUNT_AT ==> Rd(h'.mem, a) == Rd(h.mem, a))
  {
    hide PageOf, Aligned8, PageAligned;
    var (h', back) := Free(h, b);
    var L' := WithoutBlock(L, b, back);
    var page := PageOf(b);
    assert BlockOk(L, b);
    FreeCounts(h, L, b);
    FreeGeometry(L, b, back);
    hide CountsOk, On, Geometry;
    assert SlotOk(h', L') by { FreeSlot(h, L, b, h'.mem, back); }
    hide SlotOk;
  }

  lemma FreeSlot(h: Heap, L: Layout, b: nat, m: Mem, back: bool)
    requires SlotOk(h, L) && (back ==> PageOf(b) != h.curPage)
    ensures SlotOk(h.(mem := m), WithoutBlock(L, b, back))
  {
    hide PageOf, Aligned8;
  }

  lemma FreeCounts(h: Heap, L: Layout, b: nat)
    requires CountsOk(h.mem, L) && b in L.live && PageOf(b) in L.pages
    ensures var (h', back) := Free(h, b);
            CountsOk(h'.mem, WithoutBlock(L, b, back)) && (back <==> On(L, PageOf(b)) == {b})
  {
    hide PageOf;
    var (h', back) := Free(h, b);
    var L' := WithoutBlock(L, b, back);
    OnWithout(L, b, back, PageOf(b));
    LastBlock(On(L, PageOf(b)), b);
    forall p | p in L'.pages
      ensures Rd(h'.mem, p + COUNT_AT) == |On(L', p)| && On(L', p) != {}
    {
      OnWithout(L, b, back, p);
      hide On;
    }
  }

  lemma FreeGeometry(L: Layout, b: nat, back: bool)
    requires Geometry(L) && b in L.live && (back ==> On(L, PageOf(b)) == {b})
    ensures Geometry(WithoutBlock(L, b, back))
  {
    hide PageOf, Aligned8, PageAligned;
    var L' := WithoutBlock(L, b, back);
    forall x | x in L'.live
      ensures BlockOk(L', x)
    {
      assert BlockOk(L, x);
      assert PageOf(x) == PageOf(b) ==> x in On(L, PageOf(b));
    }
  }

  lemma LastBlock(s: set<nat>, b: nat)
    requires b in s
    ensures |s| == 1 <==> s == {b}
  {
    if |s| == 1 {
      assert |s - {b}| == 0;
      assert s == {b};
    }
  }

  /** Releasing the only block on the page being carved hands that page back while the slot still
      names it: the condition FreeKeeps asks for is exactly what prevents it. */
  lemma FreeDanglesIff(h: Heap, L: Layout, b: nat)
    requires AllocInv(h, L) && b in L.live
    ensures Free(h, b).1 && PageOf(b) == h.curPage <==> PageOf(b) == h.curPage && On(L, h.curPage) == {b}
  {
    assert BlockOk(L, b);
    assert b in On(L, PageOf(b));
    LastBlock(On(L, PageOf(b)), b);
  }

  /** So one allocation and its release, from the empty heap, leave the slot naming a page that has gone
      back; the next allocation is cut from it without asking the arena. */
  lemma OneBlockDangles()
    ensures var (h1, b) := Alloc(Heap(map[], 0, 0), ELEM_SIZE, PAGE);
            var (h2, back) := Free(h1, b);
            var (h3, b') := Alloc(h2, ELEM_SIZE, 0);
            b != 0 && back && h2.curPage == PageOf(b) == PAGE && b' != 0 && PageOf(b') == PAGE
  {
    assert RoundUp(ELEM_SIZE) == ELEM_SIZE by { RoundUpIsMultiple(ELEM_SIZE); }
    hide RoundUp;
  }

  /** An allocation is refused exactly when the block can never fit a page, or when it does not fit what is
      left of the current one and no new page is granted; otherwise it is cut off the top of the free part
      of the current page if it fits there, and off the granted page if not. */
  lemma AllocExact(h: Heap, size: nat, grant: nat)
    requires size > 0
    ensures var (h', b) := Alloc(h, size, grant);
            var n := RoundUp(size);
            && (b == 0 <==> n >= 4088 || (grant == 0 && (h.curPage == 0 || h.curOffset < n)))
            && (n < 4088 && h.curPage != 0 && n <= h.curOffset ==>
                  h'.curPage == h.curPage && h'.curOffset == h.curOffset - n && b == h.curPage + h.curOffset - n)
            && (n < 4088 && grant != 0 && (h.curPage == 0 || h.curOffset < n) ==>
                  h'.curPage == grant && h'.curOffset == 4088 - n && b == grant + 4088 - n)
  {
    RoundUpIsMultiple(size);
    hide RoundUp;
  }

  /** So the last block of a page is handed out without a new one. */
  lemma LastBlockFits(m: Mem)
    ensures Alloc(Heap(m, 4096, 56), 32, 0).1 == 4096 + 24
  {
    AllocExact(Heap(m, 4096, 56), 32, 0);
    RoundUpIsMultiple(32);
  }
}
