/** The arena as the hash-table programs see it: one flat word memory, the page-fragment allocator's
    per-CPU slot, and the operations of both programs, as functions of the heap and as the methods
    that update it in place. */
module ArenaHeap {
  import opened Words

  const PAGE: nat := 4096
  const COUNT_AT: nat := 4088
  const MAX_BUCKET_WALK: nat := 256
  const N_BUCKETS: nat := 1024
  const ENOMEM: int := 12
  const LIST_POISON1: int := 0x100
  const LIST_POISON2: int := 0x122

  /** Field offsets of an element; its list node starts at NODE and its size is 32. */
  const KEY: nat := 4
  const VALUE: nat := 8
  const NODE: nat := 16
  const ELEM_SIZE: nat := 32

  type Mem = map<nat, int>

  /** Words never written read as zero; a page granted again keeps its old words. */
  function Rd(m: Mem, a: nat): (v: int) {
    if a in m then m[a] else 0
  }

  datatype Heap = Heap(mem: Mem, curPage: nat, curOffset: int)

  function PageOf(a: nat): (p: nat) {
    a - a % PAGE
  }

  /** Next multiple of 8, as the allocator computes it. */
  function RoundUp(x: nat): (r: nat)
    requires x > 0
  {
    BitOr(x - 1, 7) + 1
  }

  lemma RoundUpIsMultiple(x: nat)
    requires x > 0
    ensures RoundUp(x) % 8 == 0 && x <= RoundUp(x) < x + 8
  {
    hide BitOr;
    var y := x - 1;
    OrStep(y, 3);
    OrStep(y / 2, 1);
    OrStep(y / 2 / 2, 0);
    OrZero(y / 2 / 2 / 2);
    assert BitOr(y, 7) == 1 + 2 * (1 + 2 * (1 + 2 * (y / 2 / 2 / 2)));
  }

  lemma OrZero(x: nat)
    ensures BitOr(x, 0) == x
  {
  }

  lemma OrStep(x: nat, m: nat)
    ensures BitOr(x, 2 * m + 1) == 1 + 2 * BitOr(x / 2, m)
  {
  }

  // ----- the allocator -----

  /** A new current page, if the arena grants one. */
  function Refill(h: Heap, grant: nat): (h': Heap) {
    Heap(h.mem[grant + COUNT_AT := 0], grant, COUNT_AT)
  }

  /** Cuts a block off the low end of the current page's free part and counts it. */
  function Carve(h: Heap, offset: nat): (r: (Heap, nat)) {
    var cnt := h.curPage + COUNT_AT;
    (Heap(h.mem[cnt := Rd(h.mem, cnt) + 1], h.curPage, offset), h.curPage + offset)
  }

  /** The block's address, or 0. The arena's answer to a request for a page is grant, 0 if it has none. */
  function Alloc(h: Heap, size: nat, grant: nat): (r: (Heap, nat))
    requires size > 0
  {
    var n := RoundUp(size);
    if n >= COUNT_AT then (h, 0)
    else if h.curPage != 0 && h.curOffset - n >= 0 then Carve(h, h.curOffset - n)
    else if grant == 0 then (h, 0)
    else Carve(Refill(h, grant), COUNT_AT - n)
  }

  /** Uncounts a block; the second result says whether its page goes back to the arena. */
  function Free(h: Heap, a: nat): (r: (Heap, bool)) {
    var cnt := PageOf(a) + COUNT_AT;
    (h.(mem := h.mem[cnt := Rd(h.mem, cnt) - 1]), Rd(h.mem, cnt) - 1 == 0)
  }

  // ----- lists and buckets -----

  /** Puts node n in front of the list whose first pointer is at head. */
  function AddHead(m: Mem, n: nat, head: nat): (m': Mem) {
    var first := Rd(m, head);
    var m1 := m[n := first];
    var m2 := if first > 0 then m1[first + 8 := n] else m1;
    m2[head := n][n + 8 := head]
  }

  /** Unlinks node n through its back pointer and poisons it. */
  function Unlink(m: Mem, n: nat): (m': Mem) {
    var next, pprev := Rd(m, n), Rd(m, n + 8);
    var m1 := if pprev >= 0 then m[pprev := next] else m;
    var m2 := if next > 0 then m1[next + 8 := pprev] else m1;
    m2[n := LIST_POISON1][n + 8 := LIST_POISON2]
  }

  /** Identity hash, low bits of the 32-bit key. */
  function BucketIndex(key: int): (i: nat)
    ensures i < N_BUCKETS
  {
    key % N_BUCKETS
  }

  /** The program masks the key, taken as an unsigned word, with the number of buckets less one. */
  lemma BucketIsMasked(key: int)
    ensures BitAnd(Wrap32(key), N_BUCKETS - 1) == BucketIndex(key)
  {
    assert Pow2(10) == N_BUCKETS by { Pow2Width(); assert Pow2(5) == 32; Pow2Sum(5, 5); }
    hide BitAnd, Pow2;
    AllOnesIsMod(Wrap32(key), 10);
    assert key == TWO32 * (key / TWO32) + Wrap32(key);
    assert TWO32 == N_BUCKETS * 0x40_0000;
    ModUnique(key, N_BUCKETS, 0x40_0000 * (key / TWO32) + Wrap32(key) / N_BUCKETS, Wrap32(key) % N_BUCKETS);
  }

  /** Walks at most limit nodes from a raw node pointer; no node lies below NODE. */
  function Walk(m: Mem, raw: int, key: int, limit: nat): (e: nat)
    decreases limit
  {
    if limit == 0 || raw < NODE then 0
    else
      var pos := raw - NODE;
      if Rd(m, pos) == key && Rd(m, pos + KEY) == key then pos
      else Walk(m, Rd(m, pos + NODE), key, limit - 1)
  }

  function Fill(m: Mem, e: nat, key: int, value: int): (m': Mem) {
    m[e + KEY := key][e := key][e + VALUE := value]
  }

  /** The value of the element the walk finds, or 0. */
  function Looked(m: Mem, buckets: nat, key: int, budget: nat): (v: int) {
    var e := Walk(m, Rd(m, buckets + 8 * BucketIndex(key)), key, budget);
    if e == 0 then 0 else Rd(m, e + VALUE)
  }

  /** One update whose walk visits at most limit nodes: new heap, return code, and whether a page went
      back to the arena. */
  function Update(h: Heap, buckets: nat, key: int, value: int, grant: nat, limit: nat): (r: (Heap, int, bool)) {
    var head := buckets + 8 * BucketIndex(key);
    var old_ := Walk(h.mem, Rd(h.mem, head), key, limit);
    var (h1, e) := Alloc(h, ELEM_SIZE, grant);
    if e == 0 then (h1, -ENOMEM, false)
    else
      var h2 := h1.(mem := AddHead(Fill(h1.mem, e, key, value), e + NODE, head));
      if old_ == 0 then (h2, 0, false)
      else
        var (h3, back) := Free(h2.(mem := Unlink(h2.mem, old_ + NODE)), old_);
        (h3, 0, back)
  }

  // ----- the programs -----

  /** The heap, updated in place. */
  class Arena {
    var mem: Mem
    var curPage: nat
    var curOffset: int

    constructor ()
      ensures State() == Heap(map[], 0, 0)
    {
      mem, curPage, curOffset := map[], 0, 0;
    }

    function State(): (h: Heap)
      reads this
    {
      Heap(mem, curPage, curOffset)
    }

    method BpfAllocRefill(grant: nat) returns (ok: bool)
      modifies this
      ensures ok == (grant != 0)
      ensures State() == if ok then Refill(old(State()), grant) else old(State())
    {
      if grant == 0 { return false; }
      curPage := grant;
      curOffset := COUNT_AT;
      mem := mem[grant + COUNT_AT := 0];
      return true;
    }

    method BpfAlloc(size: nat, grant: nat) returns (addr: nat)
      requires size > 0
      modifies this
      ensures (State(), addr) == Alloc(old(State()), size, grant)
    {
      hide Rd, RoundUp, BitOr;
      var n := RoundUp(size);
      RoundUpIsMultiple(size);
      if n >= COUNT_AT { return 0; }
      var offset;
      if curPage == 0 {
        var ok := BpfAllocRefill(grant);
        if !ok { return 0; }
        offset := COUNT_AT;
      } else {
        offset := curOffset;
      }
      offset := offset - n;
      if offset < 0 {
        var ok := BpfAllocRefill(grant);
        if !ok { return 0; }
        offset := COUNT_AT - n;
      }
      mem := mem[curPage + COUNT_AT := Rd(mem, curPage + COUNT_AT) + 1];
      curOffset := offset;
      addr := curPage + offset;
    }

    /** The same allocator written as a retry loop. */
    method BpfAllocRetry(size: nat, grant: nat) returns (addr: nat)
      requires size > 0
      modifies this
      ensures (State(), addr) == Alloc(old(State()), size, grant)
    {
      var n := RoundUp(size);
      RoundUpIsMultiple(size);
      hide RoundUp;
      if n >= COUNT_AT { return 0; }
      var page, offset := curPage, 0;
      ghost var retried := false;
      while true
        invariant State() == old(State())
        invariant if retried then page == 0 && (curPage == 0 || curOffset - n < 0) else page == curPage
        decreases !retried
      {
        if page == 0 {
          if grant == 0 { return 0; }
          page := grant;
          curPage, curOffset := page, COUNT_AT;
          mem := mem[page + COUNT_AT := 0];
          offset := COUNT_AT;
        } else {
          offset := curOffset;
        }
        offset := offset - n;
        if offset < 0 {
          page := 0;
          retried := true;
          continue;
        }
        break;
      }
      mem := mem[page + COUNT_AT := Rd(mem, page + COUNT_AT) + 1];
      curOffset := offset;
      addr := page + offset;
    }

    method BpfFree(a: nat) returns (handedBack: bool)
      modifies this
      ensures (State(), handedBack) == Free(old(State()), a)
    {
      var cnt := PageOf(a) + COUNT_AT;
      mem := mem[cnt := Rd(mem, cnt) - 1];
      handedBack := Rd(mem, cnt) == 0;
    }

    method ListAddHead(n: nat, head: nat)
      modifies this
      ensures State() == old(State()).(mem := AddHead(old(mem), n, head))
    {
      var first := Rd(mem, head);
      mem := mem[n := first];
      if first > 0 {
        mem := mem[first + 8 := n];
      }
      mem := mem[head := n];
      mem := mem[n + 8 := head];
    }

    method ListDel(n: nat)
      modifies this
      ensures State() == old(State()).(mem := Unlink(old(mem), n))
    {
      var next, pprev := Rd(mem, n), Rd(mem, n + 8);
      if pprev >= 0 {
        mem := mem[pprev := next];
      }
      if next > 0 {
        mem := mem[next + 8 := pprev];
      }
      mem := mem[n := LIST_POISON1];
      mem := mem[n + 8 := LIST_POISON2];
    }

    method LookupElemRaw(head: nat, key: int) returns (e: nat)
      ensures e == Walk(mem, Rd(mem, head), key, MAX_BUCKET_WALK)
    {
      var raw := Rd(mem, head);
      var i := 0;
      while i < MAX_BUCKET_WALK
        invariant 0 <= i <= MAX_BUCKET_WALK
        invariant Walk(mem, raw, key, MAX_BUCKET_WALK - i) == Walk(mem, Rd(mem, head), key, MAX_BUCKET_WALK)
      {
        if raw < NODE { return 0; }
        var pos := raw - NODE;
        if Rd(mem, pos) == key && Rd(mem, pos + KEY) == key { return pos; }
        raw := Rd(mem, pos + NODE);
        i := i + 1;
      }
      return 0;
    }

    /** The open-ended walk; budget is how often the loop may still go round. */
    method LookupElemOpen(head: nat, key: int, budget: nat) returns (e: nat)
      ensures e == Walk(mem, Rd(mem, head), key, budget)
    {
      var raw := Rd(mem, head);
      var left := budget;
      while raw >= NODE
        invariant Walk(mem, raw, key, left) == Walk(mem, Rd(mem, head), key, budget)
        decreases left
      {
        var pos := raw - NODE;
        var next := Rd(mem, pos + NODE);
        if left == 0 { break; }
        left := left - 1;
        if Rd(mem, pos) == key && Rd(mem, pos + KEY) == key { return pos; }
        raw := next;
      }
      return 0;
    }

    method LookupElem(buckets: nat, key: int, budget: nat) returns (value: int)
      ensures value == Looked(mem, buckets, key, budget)
    {
      var e := LookupElemOpen(buckets + 8 * BucketIndex(key), key, budget);
      return if e == 0 then 0 else Rd(mem, e + VALUE);
    }

    method UpdateElem(buckets: nat, key: int, value: int, grant: nat) returns (rc: int, handedBack: bool)
      modifies this
      ensures (State(), rc, handedBack) == Update(old(State()), buckets, key, value, grant, MAX_BUCKET_WALK)
    {
      hide Walk, AddHead, Unlink, Alloc, Free, BucketIndex;
      var head := buckets + 8 * BucketIndex(key);
      var found := LookupElemRaw(head, key);
      var e := BpfAlloc(ELEM_SIZE, grant);
      if e == 0 { return -ENOMEM, false; }
      mem := mem[e + KEY := key];
      mem := mem[e := key];
      mem := mem[e + VALUE := value];
      ListAddHead(e + NODE, head);
      handedBack := false;
      if found != 0 {
        ListDel(found + NODE);
        handedBack := BpfFree(found);
      }
      rc := 0;
    }

    /** The same update after an open-ended walk. */
    method UpdateElemOpen(buckets: nat, key: int, value: int, grant: nat, budget: nat)
        returns (rc: int, handedBack: bool)
      modifies this
      ensures (State(), rc, handedBack) == Update(old(State()), buckets, key, value, grant, budget)
    {
      hide Walk, AddHead, Unlink, Alloc, Free, BucketIndex;
      var head := buckets + 8 * BucketIndex(key);
      var found := LookupElemOpen(head, key, budget);
      var e := BpfAllocRetry(ELEM_SIZE, grant);
      if e == 0 { return -ENOMEM, false; }
      mem := mem[e + KEY := key];
      mem := mem[e := key];
      mem := mem[e + VALUE := value];
      ListAddHead(e + NODE, head);
      handedBack := false;
      if found != 0 {
        ListDel(found + NODE);
        handedBack := BpfFree(found);
      }
      rc := 0;
    }
  }
}
