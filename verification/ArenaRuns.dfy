/** Whole runs of table updates: the table is a finite map in which the last successful write wins,
    and the bounded bucket walk sees all of it as long as no bucket can outgrow the bound. */
module ArenaRuns {
  import opened Words
  import opened ArenaHeap
  import opened ArenaAlloc
  import opened ArenaTable
  import opened ArenaUpdate

  type Entry = (int, int)

  // ----- the map a bucket stands for -----

  /** Value of the first entry with the key, however deep. */
  function First(es: seq<Entry>, key: int): (v: Option<int>)
    ensures v.None? <==> forall j :: 0 <= j < |es| ==> es[j].0 != key
  {
    if es == [] then None else if es[0].0 == key then Some(es[0].1) else First(es[1..], key)
  }

  /** What the bounded walk finds. */
  function Reached(es: seq<Entry>, key: int, limit: nat): (v: Option<int>) {
    var p := Position(es, key, limit);
    if p.Some? then Some(es[p.value].1) else None
  }

  ghost predicate Distinct(es: seq<Entry>) {
    forall j, k :: 0 <= j < k < |es| ==> es[j].0 != es[k].0
  }

  lemma {:induction false} FirstAt(es: seq<Entry>, key: int, p: nat)
    requires p < |es| && es[p].0 == key && forall j :: 0 <= j < p ==> es[j].0 != key
    ensures First(es, key) == Some(es[p].1)
  {
    if p > 0 { FirstAt(es[1..], key, p - 1); }
  }

  /** The bounded walk misses a key exactly when all its entries lie beyond the bound. */
  lemma ReachedIff(es: seq<Entry>, key: int, limit: nat)
    ensures Reached(es, key, limit) == First(es, key) <==>
            (First(es, key).Some? ==> exists j :: 0 <= j < |es| && j < limit && es[j].0 == key)
  {
    hide PositionFrom;
    var p := Position(es, key, limit);
    if p.Some? { FirstAt(es, key, p.value); }
  }

  /** Dropping an entry of one key leaves every other key's value. */
  lemma {:induction false} FirstDropped(es: seq<Entry>, p: nat, k: int)
    requires p < |es| && es[p].0 != k
    ensures First(Dropped(es, Some(p)), k) == First(es, k)
  {
    hide First, Dropped;
    DroppedStep(es, p);
    FirstStep(es, k);
    if p > 0 {
      FirstDropped(es[1..], p - 1, k);
      FirstStep(Dropped(es, Some(p)), k);
    }
  }

  lemma FirstStep(es: seq<Entry>, k: int)
    requires es != []
    ensures First(es, k) == if es[0].0 == k then Some(es[0].1) else First(es[1..], k)
  {
  }

  lemma DroppedStep(es: seq<Entry>, p: nat)
    requires p < |es|
    ensures p == 0 ==> Dropped(es, Some(p)) == es[1..]
    ensures p > 0 ==> Dropped(es, Some(p)) != [] && Dropped(es, Some(p))[0] == es[0]
                      && Dropped(es, Some(p))[1..] == Dropped(es[1..], Some(p - 1))
  {
  }

  function Lookup(t: seq<seq<Entry>>, k: int): (v: Option<int>)
    requires |t| == N_BUCKETS
  {
    First(t[BucketIndex(k)], k)
  }

  /** Replace is a map update, whatever the depth of the old entry. */
  lemma ReplaceIsPut(t: seq<seq<Entry>>, key: int, value: int, limit: nat, k: int)
    requires |t| == N_BUCKETS
    ensures Lookup(Replace(t, key, value, limit), k) == if k == key then Some(value) else Lookup(t, k)
  {
    hide PositionFrom, BucketIndex;
    var i := BucketIndex(key);
    var p := Position(t[i], key, limit);
    var es := [(key, value)] + Dropped(t[i], p);
    assert es[1..] == Dropped(t[i], p);
    if k != key && p.Some? { FirstDropped(t[i], p.value, k); }
  }

  /** Keys stay distinct exactly when the key is not hidden beyond the bound. */
  lemma ReplaceDistinctIff(es: seq<Entry>, key: int, value: int, limit: nat)
    requires Distinct(es)
    ensures Distinct([(key, value)] + Dropped(es, Position(es, key, limit))) <==>
              (First(es, key).Some? ==> Position(es, key, limit).Some?)
  {
    hide PositionFrom;
    var p := Position(es, key, limit);
    var es' := [(key, value)] + Dropped(es, p);
    if p.Some? {
      assert forall j :: 1 <= j < |es'| ==> es'[j] == es[if j <= p.value then j - 1 else j];
    } else {
      assert forall j :: 1 <= j < |es'| ==> es'[j] == es[j - 1];
      if First(es, key).Some? {
        var j :| 0 <= j < |es| && es[j].0 == key;
        assert es'[j + 1].0 == es'[0].0;
      }
    }
  }

  /** An update fails exactly when the current page has no room for an element and no page is granted. */
  lemma UpdateFailsIff(h: Heap, buckets: nat, key: int, value: int, grant: nat, limit: nat)
    ensures var rc := Update(h, buckets, key, value, grant, limit).1;
            if grant == 0 && (h.curPage == 0 || h.curOffset < 32) then rc == -12 else rc == 0
  {
    hide Alloc, Walk, AddHead, Unlink, Fill, Free, BucketIndex;
    AllocExact(h, ELEM_SIZE, grant);
    RoundUpIsMultiple(ELEM_SIZE);
    hide RoundUp;
  }

  // ----- runs -----

  /** One call of the update: key, value, the arena's answer should a page be needed, and how far the
      walk goes. */
  datatype Op = Op(key: int, value: int, grant: nat, limit: nat)

  /** Final heap, and which calls succeeded. */
  function Play(h: Heap, buckets: nat, ops: seq<Op>): (r: (Heap, seq<bool>))
    ensures |r.1| == |ops|
    decreases |ops|
  {
    if ops == [] then (h, [])
    else
      var (h1, rc, _) := Update(h, buckets, ops[0].key, ops[0].value, ops[0].grant, ops[0].limit);
      var (h2, done) := Play(h1, buckets, ops[1..]);
      (h2, [rc == 0] + done)
  }

  ghost function PlayLayout(h: Heap, L: Layout, ops: seq<Op>): (L': Layout)
    requires |L.chains| == N_BUCKETS
    ensures |L'.chains| == N_BUCKETS
    decreases |ops|
  {
    if ops == [] then L
    else
      var h1 := Update(h, L.buckets, ops[0].key, ops[0].value, ops[0].grant, ops[0].limit).0;
      PlayLayout(h1, NextLayout(h, L, ops[0].key, ops[0].value, ops[0].grant, ops[0].limit), ops[1..])
  }

  /** The arena never grants a page that is in use. */
  ghost predicate GrantsOk(h: Heap, L: Layout, ops: seq<Op>)
    requires |L.chains| == N_BUCKETS
    decreases |ops|
  {
    ops == [] ||
    (&& GrantOk(L, ops[0].grant)
     && GrantsOk(Update(h, L.buckets, ops[0].key, ops[0].value, ops[0].grant, ops[0].limit).0,
                 NextLayout(h, L, ops[0].key, ops[0].value, ops[0].grant, ops[0].limit), ops[1..]))
  }

  /** The last successful write to a key, if any. */
  function LastWrite(ops: seq<Op>, done: seq<bool>, k: int): (v: Option<int>)
    requires |done| == |ops|
    ensures v.Some? <==> exists j :: 0 <= j < |ops| && ops[j].key == k && done[j]
    ensures v.Some? ==> exists j :: 0 <= j < |ops| && ops[j] == Op(k, v.value, ops[j].grant, ops[j].limit) && done[j]
                                    && forall o :: j < o < |ops| && ops[o].key == k ==> !done[o]
  {
    if ops == [] then None
    else
      var n := |ops| - 1;
      if ops[n].key == k && done[n] then
        assert ops[n] == Op(k, ops[n].value, ops[n].grant, ops[n].limit);
        Some(ops[n].value)
      else LastWrite(ops[..n], done[..n], k)
  }

  lemma {:induction false} LastWriteCons(op: Op, d: bool, ops: seq<Op>, done: seq<bool>, k: int)
    requires |done| == |ops|
    ensures LastWrite([op] + ops, [d] + done, k) ==
            var v := LastWrite(ops, done, k);
            if v.Some? then v else if op.key == k && d then Some(op.value) else None
  {
    hide LastWrite;
    var n := |ops|;
    LastWriteStep([op] + ops, [d] + done, k);
    LastWriteStep(ops, done, k);
    if n > 0 {
      assert ([op] + ops)[..n] == [op] + ops[..n - 1] && ([d] + done)[..n] == [d] + done[..n - 1];
      LastWriteCons(op, d, ops[..n - 1], done[..n - 1], k);
    } else {
      assert ([op] + ops)[..n] == [] && ([d] + done)[..n] == [];
      LastWriteStep([], [], k);
    }
  }

  lemma LastWriteStep(ops: seq<Op>, done: seq<bool>, k: int)
    requires |done| == |ops|
    ensures var n := |ops| - 1;
            LastWrite(ops, done, k) ==
            if ops == [] then None
            else if ops[n].key == k && done[n] then Some(ops[n].value)
            else LastWrite(ops[..n], done[..n], k)
  {
  }

  /** Over any run the invariant holds, nothing leaks, and looking a key up gives its last successful write. */
  lemma {:induction false} RunIsMap(h: Heap, L: Layout, kept: set<nat>, ops: seq<Op>, k: int)
    requires Inv(h, L) && GrantsOk(h, L, ops)
    ensures var (h', done) := Play(h, L.buckets, ops);
            var L' := PlayLayout(h, L, ops);
            && Inv(h', L') && (Owned(L, kept) ==> Owned(L', kept))
            && Lookup(Table(h'.mem, L'), k) ==
               if LastWrite(ops, done, k).Some? then LastWrite(ops, done, k) else Lookup(Table(h.mem, L), k)
    decreases |ops|
  {
    hide AllocInv, TableInv, Update, NextLayout, Table, Replace, Lookup, LastWrite, Owned, BucketIndex;
    if ops != [] {
      var op := ops[0];
      BucketCount(h.mem, L);
      var (h1, rc, _) := Update(h, L.buckets, op.key, op.value, op.grant, op.limit);
      var L1 := NextLayout(h, L, op.key, op.value, op.grant, op.limit);
      UpdateKeeps(h, L, kept, op.key, op.value, op.grant, op.limit);
      RunIsMap(h1, L1, kept, ops[1..], k);
      assert ops == [op] + ops[1..];
      LastWriteCons(op, rc == 0, ops[1..], Play(h1, L.buckets, ops[1..]).1, k);
      if rc == 0 { ReplaceIsPut(Table(h.mem, L), op.key, op.value, op.limit, k); }
    } else {
      assert LastWrite(ops, Play(h, L.buckets, ops).1, k) == None;
    }
  }

  // ----- the bounded walk -----

  ghost function InBucket(S: set<int>, i: nat): (K: set<int>) {
    set k | k in S && BucketIndex(k) == i
  }

  /** No bucket can collect more of these keys than the walk visits. */
  ghost predicate Roomy(S: set<int>, limit: nat) {
    forall i :: 0 <= i < N_BUCKETS ==> |InBucket(S, i)| <= limit
  }

  ghost predicate BucketFrom(es: seq<Entry>, K: set<int>) {
    Distinct(es) && forall j :: 0 <= j < |es| ==> es[j].0 in K
  }

  ghost predicate TableFrom(t: seq<seq<Entry>>, S: set<int>) {
    |t| == N_BUCKETS && forall i :: 0 <= i < N_BUCKETS ==> BucketFrom(t[i], InBucket(S, i))
  }

  lemma {:induction false} AtMostTheKeys(es: seq<Entry>, K: set<int>)
    requires BucketFrom(es, K)
    ensures |es| <= |K|
  {
    if es != [] {
      AtMostTheKeys(es[1..], K - {es[0].0});
      assert es[0].0 in K;
    }
  }

  lemma AllReached(es: seq<Entry>, K: set<int>, key: int, limit: nat)
    requires BucketFrom(es, K) && |K| <= limit
    ensures Reached(es, key, limit) == First(es, key) && (First(es, key).Some? ==> Position(es, key, limit).Some?)
  {
    hide PositionFrom;
    AtMostTheKeys(es, K);
    ReachedIff(es, key, limit);
  }

  lemma ReplaceStays(t: seq<seq<Entry>>, S: set<int>, key: int, value: int, limit: nat)
    requires TableFrom(t, S) && Roomy(S, limit) && key in S
    ensures TableFrom(Replace(t, key, value, limit), S)
  {
    hide PositionFrom, BucketIndex;
    var i := BucketIndex(key);
    var K, p := InBucket(S, i), Position(t[i], key, limit);
    AllReached(t[i], K, key, limit);
    ReplaceDistinctIff(t[i], key, value, limit);
    var es' := [(key, value)] + Dropped(t[i], p);
    forall j | 0 <= j < |es'|
      ensures es'[j].0 in K
    {
      assert j > 0 ==> es'[j] in t[i];
    }
  }

  /** Over any run on such keys no key occurs twice, and the bounded walk finds every key's last
      successful write. */
  lemma {:induction false} RunStaysReachable(h: Heap, L: Layout, S: set<int>, limit: nat, ops: seq<Op>, k: int)
    requires Inv(h, L) && GrantsOk(h, L, ops) && Roomy(S, limit) && TableFrom(Table(h.mem, L), S)
    requires forall j :: 0 <= j < |ops| ==> ops[j].key in S && ops[j].limit == limit
    ensures var (h', done) := Play(h, L.buckets, ops);
            var t' := Table(h'.mem, PlayLayout(h, L, ops));
            && TableFrom(t', S)
            && Reached(t'[BucketIndex(k)], k, limit) ==
               if LastWrite(ops, done, k).Some? then LastWrite(ops, done, k) else Lookup(Table(h.mem, L), k)
    decreases |ops|
  {
    hide AllocInv, TableInv, Update, NextLayout, Table, Replace, BucketIndex, LastWrite, Roomy, Position, BucketFrom;
    RunIsMap(h, L, {}, ops, k);
    if ops != [] {
      var op := ops[0];
      BucketCount(h.mem, L);
      var (h1, rc, _) := Update(h, L.buckets, op.key, op.value, op.grant, op.limit);
      var L1 := NextLayout(h, L, op.key, op.value, op.grant, op.limit);
      UpdateKeeps(h, L, {}, op.key, op.value, op.grant, op.limit);
      if rc == 0 { ReplaceStays(Table(h.mem, L), S, op.key, op.value, limit); }
      RunStaysReachable(h1, L1, S, limit, ops[1..], k);
    }
    var t' := Table(Play(h, L.buckets, ops).0.mem, PlayLayout(h, L, ops));
    var i := BucketIndex(k);
    assert |InBucket(S, i)| <= limit by { RoomyAt(S, limit, i); }
    AllReached(t'[i], InBucket(S, i), k, limit);
  }

  lemma RoomyAt(S: set<int>, limit: nat, i: nat)
    requires Roomy(S, limit) && i < N_BUCKETS
    ensures |InBucket(S, i)| <= limit
  {
  }

  /** The first n keys of a bucket when keys are consecutive. */
  ghost function Column(i: nat, n: nat): (K: set<int>)
    ensures |K| <= n
    ensures forall q :: 0 <= q < n ==> N_BUCKETS * q + i in K
  {
    if n == 0 then {} else Column(i, n - 1) + {N_BUCKETS * (n - 1) + i}
  }

  /** The keys the program inserts, 0 to 99999, never crowd a bucket. */
  lemma ConsecutiveKeysAreRoomy(S: set<int>)
    requires forall k :: k in S ==> 0 <= k < 100000
    ensures Roomy(S, MAX_BUCKET_WALK) && forall i :: 0 <= i < N_BUCKETS ==> |InBucket(S, i)| <= 98
  {
    forall i | 0 <= i < N_BUCKETS
      ensures |InBucket(S, i)| <= 98
    {
      var K := Column(i, 98);
      forall k | k in InBucket(S, i)
        ensures k in K
      {
        assert k == N_BUCKETS * (k / N_BUCKETS) + i;
      }
      SubsetSize(InBucket(S, i), K);
    }
  }

  lemma SubsetSize(A: set<int>, B: set<int>)
    requires A <= B
    ensures |A| <= |B|
  {
    assert B == A + (B - A);
  }

  /** Nothing allocated yet, every bucket empty. */
  ghost function FreshLayout(buckets: nat): (L: Layout) {
    Layout(buckets, {}, map[], seq(N_BUCKETS, i => []), map[])
  }

  /** Runs start from an arena whose only pages in use are the two zeroed bucket pages. */
  lemma FreshStarts(buckets: nat, S: set<int>, k: int)
    requires buckets > 0 && PageAligned(buckets)
    ensures var h, L := Heap(map[], 0, 0), FreshLayout(buckets);
            Inv(h, L) && Owned(L, {}) && TableFrom(Table(h.mem, L), S) && Lookup(Table(h.mem, L), k) == None
  {
    hide BucketIndex, PageAligned, PageOf, InBucket;
  }

  // ----- walks that end by themselves -----

  /** Every update's walk may go as far as its bucket is long. */
  ghost predicate WalksEnd(h: Heap, L: Layout, ops: seq<Op>)
    requires |L.chains| == N_BUCKETS
    decreases |ops|
  {
    ops == [] ||
    (&& |L.chains[BucketIndex(ops[0].key)]| <= ops[0].limit
     && WalksEnd(Update(h, L.buckets, ops[0].key, ops[0].value, ops[0].grant, ops[0].limit).0,
                 NextLayout(h, L, ops[0].key, ops[0].value, ops[0].grant, ops[0].limit), ops[1..]))
  }

  ghost predicate AllDistinct(t: seq<seq<Entry>>) {
    forall i :: 0 <= i < |t| ==> Distinct(t[i])
  }

  /** A walk over the whole bucket finds the key if it is there. */
  lemma WholeWalk(es: seq<Entry>, key: int, limit: nat)
    requires |es| <= limit
    ensures Reached(es, key, limit) == First(es, key) && (First(es, key).Some? ==> Position(es, key, limit).Some?)
  {
    hide PositionFrom;
    ReachedIff(es, key, limit);
  }

  /** With open-ended walks no key ever occurs twice, whatever the keys. */
  lemma {:induction false} OpenRunStaysDistinct(h: Heap, L: Layout, ops: seq<Op>)
    requires Inv(h, L) && GrantsOk(h, L, ops) && WalksEnd(h, L, ops) && AllDistinct(Table(h.mem, L))
    ensures AllDistinct(Table(Play(h, L.buckets, ops).0.mem, PlayLayout(h, L, ops)))
    decreases |ops|
  {
    hide AllocInv, TableInv, Update, NextLayout, Table, BucketIndex, Distinct, Position, Dropped, Entries;
    if ops != [] {
      var op := ops[0];
      BucketCount(h.mem, L);
      var (h1, rc, _) := Update(h, L.buckets, op.key, op.value, op.grant, op.limit);
      UpdateKeeps(h, L, {}, op.key, op.value, op.grant, op.limit);
      var es := Table(h.mem, L)[BucketIndex(op.key)];
      WholeWalk(es, op.key, op.limit);
      ReplaceDistinctIff(es, op.key, op.value, op.limit);
      OpenRunStaysDistinct(h1, NextLayout(h, L, op.key, op.value, op.grant, op.limit), ops[1..]);
    }
  }

  // ----- a bucket longer than the bounded walk -----

  /** The bucket after inserting the first n keys that fall into bucket 0. */
  function Stacked(n: nat): (es: seq<Entry>) {
    if n == 0 then [] else [(N_BUCKETS * (n - 1), 0)] + Stacked(n - 1)
  }

  lemma {:induction false} StackedKeys(n: nat)
    ensures |Stacked(n)| == n && forall j :: 0 <= j < n ==> Stacked(n)[j].0 == N_BUCKETS * (n - 1 - j)
  {
    if n > 0 { StackedKeys(n - 1); }
  }

  /** The page the arena would grant to insertion j. */
  function GrantFor(buckets: nat, j: nat): (p: nat) { buckets + 2 * PAGE + PAGE * j }

  function Inserts(buckets: nat, j: nat, n: nat): (ops: seq<Op>)
    decreases n - j
  {
    if j >= n then []
    else [Op(N_BUCKETS * j, 0, GrantFor(buckets, j), MAX_BUCKET_WALK)] + Inserts(buckets, j + 1, n)
  }

  ghost predicate PagesBelow(L: Layout, p: nat) {
    forall q :: q in L.pages ==> q < p
  }

  lemma GrantIsOk(L: Layout, j: nat)
    requires Geometry(L) && PagesBelow(L, GrantFor(L.buckets, j))
    ensures GrantFor(L.buckets, j) != 0 && GrantOk(L, GrantFor(L.buckets, j))
  {
    var q := L.buckets / PAGE;
    assert GrantFor(L.buckets, j) == PAGE * (q + 2 + j);
  }

  /** A granted update succeeds, and takes no page but the granted one. */
  lemma GrantedSucceeds(h: Heap, L: Layout, key: int, value: int, grant: nat, limit: nat)
    requires SlotOk(h, L) && |L.chains| == N_BUCKETS && grant != 0
    ensures Update(h, L.buckets, key, value, grant, limit).1 == 0
    ensures NextLayout(h, L, key, value, grant, limit).pages <= L.pages + {grant}
  {
    hide BucketIndex, Walk, AddHead, Unlink, PageOf, Aligned8, Position, Entries, RoundUp, Rd;
    RoundUpIsMultiple(ELEM_SIZE);
  }

  lemma {:induction false} StackGrows(h: Heap, L: Layout, j: nat, n: nat)
    requires Inv(h, L) && Table(h.mem, L)[0] == Stacked(j) && j <= n && PagesBelow(L, GrantFor(L.buckets, j))
    ensures GrantsOk(h, L, Inserts(L.buckets, j, n))
    ensures var (h', done) := Play(h, L.buckets, Inserts(L.buckets, j, n));
            var L' := PlayLayout(h, L, Inserts(L.buckets, j, n));
            && Inv(h', L') && L'.buckets == L.buckets && Table(h'.mem, L')[0] == Stacked(n)
            && PagesBelow(L', GrantFor(L.buckets, n)) && false !in done
    decreases n - j
  {
    hide AllocInv, TableInv, Update, NextLayout, Table, BucketIndex, Position, Dropped, Entries, GrantOk, GrantFor,
         Stacked;
    if j < n {
      BucketCount(h.mem, L);
      var key, grant := N_BUCKETS * j, GrantFor(L.buckets, j);
      var (h1, rc, _) := Update(h, L.buckets, key, 0, grant, MAX_BUCKET_WALK);
      var L1 := NextLayout(h, L, key, 0, grant, MAX_BUCKET_WALK);
      StackStep(h, L, j);
      StackGrows(h1, L1, j + 1, n);
      assert Inserts(L.buckets, j, n)[1..] == Inserts(L.buckets, j + 1, n);
    }
  }

  lemma StackStep(h: Heap, L: Layout, j: nat)
    requires Inv(h, L) && Table(h.mem, L)[0] == Stacked(j) && PagesBelow(L, GrantFor(L.buckets, j))
    ensures |L.chains| == N_BUCKETS && GrantOk(L, GrantFor(L.buckets, j))
    ensures var (h1, rc, _) := Update(h, L.buckets, N_BUCKETS * j, 0, GrantFor(L.buckets, j), MAX_BUCKET_WALK);
            var L1 := NextLayout(h, L, N_BUCKETS * j, 0, GrantFor(L.buckets, j), MAX_BUCKET_WALK);
            && rc == 0 && Inv(h1, L1) && L1.buckets == L.buckets && Table(h1.mem, L1)[0] == Stacked(j + 1)
            && PagesBelow(L1, GrantFor(L.buckets, j + 1))
  {
    hide TableInv, Update, NextLayout, Table, Entries, Position, CountsOk, SlotOk, Geometry, GrantOk, BucketIndex,
         Stacked;
    var key, grant := N_BUCKETS * j, GrantFor(L.buckets, j);
    BucketCount(h.mem, L);
    GrantIsOk(L, j);
    GrantedSucceeds(h, L, key, 0, grant, MAX_BUCKET_WALK);
    UpdateKeeps(h, L, {}, key, 0, grant, MAX_BUCKET_WALK);
    StackPushes(j);
  }

  /** The next key falls into the same bucket and is not there yet. */
  lemma StackPushes(j: nat)
    ensures BucketIndex(N_BUCKETS * j) == 0 && Position(Stacked(j), N_BUCKETS * j, MAX_BUCKET_WALK).None?
    ensures Stacked(j + 1) == [(N_BUCKETS * j, 0)] + Stacked(j)
  {
    hide PositionFrom;
    StackedKeys(j);
  }

  /** From the fresh arena, 257 insertions fill a bucket beyond the walk; updating the deepest key then
      leaves it there twice. */
  lemma DeepKeyStaysTwice(buckets: nat)
    requires buckets > 0 && PageAligned(buckets)
    ensures var (h, L, n) := (Heap(map[], 0, 0), FreshLayout(buckets), MAX_BUCKET_WALK + 1);
            var ops := Inserts(buckets, 0, n);
            && GrantsOk(h, L, ops)
            && var h1, L1 := Play(h, buckets, ops).0, PlayLayout(h, L, ops);
               var grant := GrantFor(buckets, n);
               && Inv(h1, L1) && Distinct(Table(h1.mem, L1)[0]) && GrantOk(L1, grant)
               && Update(h1, buckets, 0, 1, grant, MAX_BUCKET_WALK).1 == 0
               && !Distinct(Table(Update(h1, buckets, 0, 1, grant, MAX_BUCKET_WALK).0.mem,
                                  NextLayout(h1, L1, 0, 1, grant, MAX_BUCKET_WALK))[0])
  {
    var h, L, n := Heap(map[], 0, 0), FreshLayout(buckets), MAX_BUCKET_WALK + 1;
    FreshStarts(buckets, {}, 0);
    assert Table(h.mem, L)[0] == Stacked(0);
    hide AllocInv, TableInv, Update, NextLayout, Table, Position, Dropped, Entries, GrantOk, GrantFor, Stacked, Play,
         PlayLayout, Inserts, FreshLayout;
    StackGrows(h, L, 0, n);
    var h1, L1 := Play(h, buckets, Inserts(buckets, 0, n)).0, PlayLayout(h, L, Inserts(buckets, 0, n));
    StackedKeys(n);
    DeepUpdate(h1, L1, n, GrantFor(buckets, n));
  }

  /** Updating a key that lies beyond the walk's bound. */
  lemma DeepUpdate(h: Heap, L: Layout, n: nat, grant: nat)
    requires Inv(h, L) && n > MAX_BUCKET_WALK && Table(h.mem, L)[0] == Stacked(n)
    requires grant == GrantFor(L.buckets, n) && PagesBelow(L, grant)
    ensures |L.chains| == N_BUCKETS && GrantOk(L, grant) && Update(h, L.buckets, 0, 1, grant, MAX_BUCKET_WALK).1 == 0
    ensures !Distinct(Table(Update(h, L.buckets, 0, 1, grant, MAX_BUCKET_WALK).0.mem,
                            NextLayout(h, L, 0, 1, grant, MAX_BUCKET_WALK))[0])
    ensures Distinct(Stacked(n))
  {
    hide TableInv, Update, NextLayout, Table, Entries, Position, Dropped, CountsOk, SlotOk, Geometry, GrantOk,
         GrantFor, Stacked, Distinct, First;
    BucketCount(h.mem, L);
    GrantIsOk(L, n);
    GrantedSucceeds(h, L, 0, 1, grant, MAX_BUCKET_WALK);
    UpdateKeeps(h, L, {}, 0, 1, grant, MAX_BUCKET_WALK);
    DeepStack(n);
    ReplaceDistinctIff(Stacked(n), 0, 1, MAX_BUCKET_WALK);
  }

  lemma DeepStack(n: nat)
    requires n > MAX_BUCKET_WALK
    ensures Distinct(Stacked(n)) && First(Stacked(n), 0).Some? && Position(Stacked(n), 0, MAX_BUCKET_WALK).None?
  {
    hide PositionFrom, Stacked, First;
    StackedKeys(n);
    assert Stacked(n)[n - 1].0 == 0;
  }

  // ----- lookups -----

  /** With a budget no smaller than the bucket, lookup returns the key's value, or 0 if it has none. */
  lemma LookupIsMapped(m: Mem, L: Layout, key: int, budget: nat)
    requires Geometry(L) && TableInv(m, L) && budget >= |L.chains[BucketIndex(key)]|
    ensures Looked(m, L.buckets, key, budget) ==
            match Lookup(Table(m, L), key) case None => 0 case Some(v) => v
  {
    hide Geometry, BucketIndex, PositionFrom, Walk, Rd;
    var i := BucketIndex(key);
    var c := L.chains[i];
    assert ChainAt(m, L.buckets, i, c) && HeadAt(L.buckets, i) == L.buckets + 8 * i;
    WalkFinds(m, L.buckets, i, c, key, 0, budget);
    var p := PositionFrom(Entries(m, c), key, 0, budget);
    if p.Some? {
      FirstAt(Entries(m, c), key, p.value);
      InChain(m, L, i, p.value);
    }
  }
}
