/** The LFU wrapper's priority queue (lfuHeap in lfuCache.go) together with
    the container/heap algorithms that drive it: a slice of items kept as a
    binary min-heap on their access frequency. Each item also records the
    slot it occupies. The contents of a heap, forgetting slots, are the
    multiset `Entries` of (key, frequency) pairs; every operation's contract
    is stated on that multiset and on the heap property. */
module LfuHeap {
  import opened CacheErrors

  /** What the heap orders: a cached key and how often it was read. */
  datatype Entry<K> = Entry(key: K, frequency: int)

  /** One heap slot (lfuHeapItem): the key it stands for, its frequency, and
      `index`, the slot the item believes it occupies. */
  datatype Item<K> = Item(key: K, frequency: int, index: int) {
    function AsEntry(): Entry<K> { Entry(key, frequency) }
  }

  type Heap<K> = seq<Item<K>>

  /** The result of removing one item from a heap. */
  datatype Popped<K> = Popped(item: Item<K>, rest: Heap<K>)

  function Parent(c: nat): nat
    requires c > 0
  {
    (c - 1) / 2
  }

  /** The heap property on the first `n` slots: no item is less frequent
      than its parent. */
  ghost predicate OrderedBelow<K>(h: Heap<K>, n: nat)
    requires n <= |h|
  {
    forall c :: 0 < c < n ==> h[Parent(c)].frequency <= h[c].frequency
  }

  ghost predicate IsHeap<K>(h: Heap<K>) {
    OrderedBelow(h, |h|)
  }

  /** Every item's `index` names the slot it occupies. */
  ghost predicate Indexed<K>(h: Heap<K>) {
    forall i :: 0 <= i < |h| ==> h[i].index == i
  }

  ghost function EntrySeq<K>(h: Heap<K>): (es: seq<Entry<K>>)
    ensures |es| == |h|
    ensures forall i :: 0 <= i < |h| ==> es[i] == h[i].AsEntry()
  {
    seq(|h|, i requires 0 <= i < |h| => h[i].AsEntry())
  }

  /** The contents of a heap, forgetting slots. */
  ghost function Entries<K>(h: Heap<K>): multiset<Entry<K>> {
    multiset(EntrySeq(h))
  }

  lemma EntriesOfUpdate<K>(h: Heap<K>, p: nat, x: Item<K>)
    requires p < |h|
    ensures Entries(h[p := x]) == Entries(h) - multiset{h[p].AsEntry()} + multiset{x.AsEntry()}
  {
    assert EntrySeq(h[p := x]) == EntrySeq(h)[p := x.AsEntry()];
  }

  /** Replacing an item by one that keeps its slot number keeps every
      index right. */
  lemma IndexedUpdate<K>(h: Heap<K>, p: nat, x: Item<K>)
    requires p < |h| && Indexed(h) && x.index == p
    ensures Indexed(h[p := x])
  {
  }

  lemma EntriesOfAppend<K>(h: Heap<K>, x: Item<K>)
    ensures Entries(h + [x]) == Entries(h) + multiset{x.AsEntry()}
  {
    assert EntrySeq(h + [x]) == EntrySeq(h) + [x.AsEntry()];
  }

  lemma EntriesOfPrefix<K>(h: Heap<K>)
    requires |h| > 0
    ensures Entries(h) == Entries(h[..|h| - 1]) + multiset{h[|h| - 1].AsEntry()}
  {
    assert h == h[..|h| - 1] + [h[|h| - 1]];
    EntriesOfAppend(h[..|h| - 1], h[|h| - 1]);
  }

  lemma InEntries<K>(h: Heap<K>, p: nat)
    requires p < |h|
    ensures h[p].AsEntry() in Entries(h)
  {
    assert EntrySeq(h)[p] == h[p].AsEntry();
  }

  // ---------------------------------------------------------------------------
  // The heap.Interface methods of lfuHeap

  function Len<K>(h: Heap<K>): (n: nat)
    ensures n == |Entries(h)|
  {
    |h|
  }

  /** Orders strictly by ascending frequency: items read equally often are
      never ordered either way, so ties stay where they are. */
  function Less<K>(h: Heap<K>, i: nat, j: nat): (r: bool)
    requires i < |h| && j < |h|
    ensures h[i].frequency == h[j].frequency ==> !r
    ensures i == j ==> !r
  {
    h[i].frequency < h[j].frequency
  }

  /** Less is a strict order on slots, and the pairs it leaves unordered are
      exactly the items read equally often. */
  lemma LessIsStrictOrder<K>(h: Heap<K>, i: nat, j: nat, k: nat)
    requires i < |h| && j < |h| && k < |h|
    ensures Less(h, i, j) ==> !Less(h, j, i)
    ensures Less(h, i, j) && Less(h, j, k) ==> Less(h, i, k)
    ensures !Less(h, i, j) && !Less(h, j, i) <==> h[i].frequency == h[j].frequency
  {
  }

  /** Exchanging two slots' items, whatever they are then told about their
      slots, keeps the contents. */
  lemma EntriesOfExchange<K>(h: Heap<K>, i: nat, j: nat, x: Item<K>, y: Item<K>)
    requires i < |h| && j < |h|
    requires x.AsEntry() == h[j].AsEntry() && y.AsEntry() == h[i].AsEntry()
    ensures Entries(h[i := x][j := y]) == Entries(h)
  {
    var m := Entries(h);
    var a := h[i].AsEntry();
    var b := h[j].AsEntry();
    InEntries(h, i);
    EntriesOfUpdate(h, i, x);
    var h1 := h[i := x];
    EntriesOfUpdate(h1, j, y);
    if i == j {
      assert Entries(h1) == m - multiset{a} + multiset{a};
      assert m - multiset{a} + multiset{a} == m;
    } else {
      assert h1[j].AsEntry() == b;
      assert Entries(h1) - multiset{b} == m - multiset{a};
      assert m - multiset{a} + multiset{a} == m;
    }
  }

  /** Swap as lfuCache.go writes it: the items change slots, then the item
      now in slot i is told it sits in slot j and the item now in slot j is
      told it sits in slot i. */
  function SwapAsWritten<K>(h: Heap<K>, i: nat, j: nat): (r: Heap<K>)
    requires i < |h| && j < |h|
    ensures |r| == |h|
    ensures Entries(r) == Entries(h)
    ensures i != j ==> r[i].index == j && r[j].index == i
  {
    EntriesOfExchange(h, i, j, h[j].(index := j), h[i].(index := i));
    h[i := h[j].(index := j)][j := h[i].(index := i)]
  }

  /** The two-slot heap whose second item is less frequent than its first. */
  function TwoItemHeap(): (h: Heap<int>)
    ensures Indexed(h) && |h| == 2
  {
    [Item(0, 1, 0), Item(1, 0, 1)]
  }

  /** The swap `up` performs after pushing a less frequent key onto a
      one-item heap leaves both items naming the wrong slot. */
  lemma SwapAsWrittenBreaksIndices()
    ensures Indexed(TwoItemHeap())
    ensures !Indexed(SwapAsWritten(TwoItemHeap(), 0, 1))
  {
    var r := SwapAsWritten(TwoItemHeap(), 0, 1);
    assert r[0].index == 1;
  }

  /** Swap with the evidently intended bookkeeping: each item is told the
      slot it now occupies. */
  function Swap<K>(h: Heap<K>, i: nat, j: nat): (r: Heap<K>)
    requires i < |h| && j < |h|
    ensures |r| == |h|
    ensures r[i].AsEntry() == h[j].AsEntry() && r[j].AsEntry() == h[i].AsEntry()
    ensures r[i].frequency == h[j].frequency && r[j].frequency == h[i].frequency
    ensures forall p :: 0 <= p < |h| && p != i && p != j ==> r[p] == h[p]
    ensures Entries(r) == Entries(h)
    ensures Indexed(h) ==> Indexed(r)
  {
    EntriesOfExchange(h, i, j, h[j].(index := i), h[i].(index := j));
    h[i := h[j].(index := i)][j := h[i].(index := j)]
  }

  /** Both swaps move the same (key, frequency) pairs; they differ only in
      the slots the items are told. */
  lemma SwapsAgreeOnEntries<K>(h: Heap<K>, i: nat, j: nat)
    requires i < |h| && j < |h|
    ensures EntrySeq(SwapAsWritten(h, i, j)) == EntrySeq(Swap(h, i, j))
  {
  }

  /** Appends an item and tells it its slot. */
  function Push<K>(h: Heap<K>, x: Item<K>): (r: Heap<K>)
    ensures |r| == |h| + 1 && r[..|h|] == h
    ensures r[|h|].AsEntry() == x.AsEntry() && r[|h|].index == |h|
    ensures Entries(r) == Entries(h) + multiset{x.AsEntry()}
    ensures Indexed(h) ==> Indexed(r)
  {
    EntriesOfAppend(h, x.(index := |h|));
    h + [x.(index := |h|)]
  }

  /** Takes the last item off and marks it as no longer in the heap. */
  function Pop<K>(h: Heap<K>): (r: Popped<K>)
    requires |h| > 0
    ensures r.rest == h[..|h| - 1]
    ensures r.item.AsEntry() == h[|h| - 1].AsEntry() && r.item.index == -1
    ensures Entries(r.rest) + multiset{r.item.AsEntry()} == Entries(h)
    ensures Indexed(h) ==> Indexed(r.rest)
  {
    EntriesOfPrefix(h);
    Popped(h[|h| - 1].(index := -1), h[..|h| - 1])
  }

  // ---------------------------------------------------------------------------
  // container/heap: up and down

  /** Moves the item in slot j towards the root while it is less frequent
      than its parent. */
  function Up<K>(h: Heap<K>, j: nat): (r: Heap<K>)
    requires j < |h|
    ensures |r| == |h|
    ensures Entries(r) == Entries(h)
    ensures Indexed(h) ==> Indexed(r)
    ensures forall p :: j < p < |h| ==> r[p] == h[p]
    decreases j
  {
    if j == 0 then h
    else
      var i := Parent(j);
      if !Less(h, j, i) then h
      else Up(Swap(h, i, j), i)
  }

  /** An item no less frequent than the root never climbs into the root
      slot: up stops below it, since the comparison is strict. */
  lemma {:induction false} UpKeepsRoot<K>(h: Heap<K>, j: nat)
    requires 0 < j < |h| && h[0].frequency <= h[j].frequency
    ensures Up(h, j)[0] == h[0]
    decreases j
  {
    var i := Parent(j);
    if Less(h, j, i) {
      var h' := Swap(h, i, j);
      UpKeepsRoot(h', i);
    }
  }

  /** What `up` relies on: the first n slots are ordered except possibly
      between slot j and its parent, and j's parent is no more frequent than
      j's children. */
  ghost predicate UpReady<K>(h: Heap<K>, n: nat, j: nat)
    requires j < n <= |h|
  {
    && (forall c :: 0 < c < n && c != j ==> h[Parent(c)].frequency <= h[c].frequency)
    && (j > 0 ==> forall c :: 0 < c < n && Parent(c) == j ==>
                    h[Parent(j)].frequency <= h[c].frequency)
  }

  lemma {:induction false} UpRestores<K>(h: Heap<K>, j: nat, n: nat)
    requires j < n <= |h|
    requires UpReady(h, n, j)
    ensures OrderedBelow(Up(h, j), n)
    decreases j
  {
    if j > 0 {
      var i := Parent(j);
      if Less(h, j, i) {
        var h' := Swap(h, i, j);
        assert UpReady(h', n, i) by {
          forall c | 0 < c < n && c != i
            ensures h'[Parent(c)].frequency <= h'[c].frequency
          {
            if c == j {
            } else if Parent(c) == i {
              assert h[Parent(c)].frequency <= h[c].frequency;
            } else if Parent(c) == j {
              assert h[Parent(j)].frequency <= h[c].frequency;
            } else {
              assert h[Parent(c)].frequency <= h[c].frequency;
            }
          }
          if i > 0 {
            forall c | 0 < c < n && Parent(c) == i
              ensures h'[Parent(i)].frequency <= h'[c].frequency
            {
              assert h[Parent(i)].frequency <= h[i].frequency;
              if c != j {
                assert h[i].frequency <= h[c].frequency;
              }
            }
          }
        }
        UpRestores(h', i, n);
      }
    }
  }

  /** The slot of the first child of slot i; the second child follows it. */
  function FirstChild(i: nat): nat { 2 * i + 1 }

  /** The slots whose parent is slot i are exactly its two children. */
  lemma ChildrenOf(i: nat)
    ensures forall c :: 0 < c ==> (Parent(c) == i <==> c == FirstChild(i) || c == FirstChild(i) + 1)
  {
  }

  /** The less frequent of slot i's children among the first n slots, the
      left one on a tie (down compares the right child with a strict Less). */
  function MinChild<K>(h: Heap<K>, i: nat, n: nat): (j: nat)
    requires FirstChild(i) < n <= |h|
    ensures i < j < n && Parent(j) == i
    ensures forall c :: 0 < c < n && Parent(c) == i ==> h[j].frequency <= h[c].frequency
  {
    ChildrenOf(i);
    var j1 := FirstChild(i);
    if j1 + 1 < n && Less(h, j1 + 1, j1) then j1 + 1 else j1
  }

  /** Moves the item in slot i away from the root, among the first n slots,
      while its less frequent child is strictly less frequent than it.
      Returns the heap and the slot the item ended in. Only slot i and the
      slots below it change. */
  function SiftDown<K>(h: Heap<K>, i: nat, n: nat): (r: (Heap<K>, nat))
    requires i < |h| && n <= |h|
    ensures |r.0| == |h|
    ensures Entries(r.0) == Entries(h)
    ensures Indexed(h) ==> Indexed(r.0)
    ensures r.1 >= i && (r.1 == i ==> r.0 == h)
    ensures forall p :: 0 <= p < |h| && (p < i || p >= n) ==> r.0[p] == h[p]
    ensures r.1 > i ==> FirstChild(i) < n && r.0[i].frequency < h[i].frequency
    decreases n - i
  {
    if FirstChild(i) >= n then (h, i)
    else
      var j := MinChild(h, i, n);
      if !Less(h, j, i) then (h, i)
      else SiftDown(Swap(h, i, j), j, n)
  }

  /** When the item left slot i, the less frequent of i's children took it. */
  lemma SiftDownTakesMinChild<K>(h: Heap<K>, i: nat, n: nat)
    requires i < |h| && n <= |h|
    ensures var r := SiftDown(h, i, n);
            r.1 > i ==> FirstChild(i) < n && r.0[i].AsEntry() == h[MinChild(h, i, n)].AsEntry()
  {
    if FirstChild(i) < n && Less(h, MinChild(h, i, n), i) {
      var j := MinChild(h, i, n);
      assert SiftDown(h, i, n).0[i] == Swap(h, i, j)[i];
    }
  }

  /** Sifting down from slot i leaves alone the slots it cannot reach: the
      root (unless it is i), the slots from n on, and every slot whose parent
      comes before i. */
  lemma {:induction false} SiftDownFrame<K>(h: Heap<K>, i: nat, n: nat)
    requires i < |h| && n <= |h|
    ensures forall p :: 0 <= p < |h| && p != i && (p >= n || p == 0 || Parent(p) < i) ==>
              SiftDown(h, i, n).0[p] == h[p]
    decreases n - i
  {
    if FirstChild(i) < n && Less(h, MinChild(h, i, n), i) {
      var j := MinChild(h, i, n);
      SiftDownFrame(Swap(h, i, j), j, n);
    }
  }

  /** container/heap's down: reports whether the item left slot i0. When it
      did not, nothing moved; when it did, a strictly less frequent child
      took slot i0. Either way the entries and the slot indices are kept. */
  function Down<K>(h: Heap<K>, i0: nat, n: nat): (r: (Heap<K>, bool))
    requires i0 < |h| && n <= |h|
    ensures |r.0| == |h| && Entries(r.0) == Entries(h)
    ensures Indexed(h) ==> Indexed(r.0)
    ensures !r.1 ==> r.0 == h
    ensures r.1 ==> FirstChild(i0) < n && r.0[i0].frequency < h[i0].frequency
  {
    var (h', i) := SiftDown(h, i0, n);
    (h', i > i0)
  }

  /** What `down` relies on while sifting from `root`, now at slot i: within
      the first n slots, every parent at or below `root` is ordered with its
      children except slot i, and once i has left `root` its parent is no
      more frequent than i's children. */
  ghost predicate DownReady<K>(h: Heap<K>, n: nat, root: nat, i: nat)
    requires n <= |h|
  {
    && root <= i
    && (forall c :: 0 < c < n && Parent(c) >= root && Parent(c) != i ==>
          h[Parent(c)].frequency <= h[c].frequency)
    && (i != root ==> i > 0 && forall c :: 0 < c < n && Parent(c) == i ==>
                                 h[Parent(i)].frequency <= h[c].frequency)
  }

  /** Where down stops, the order below `root` is complete. */
  lemma DownStops<K>(h: Heap<K>, root: nat, i: nat, n: nat)
    requires i < |h| && n <= |h|
    requires DownReady(h, n, root, i)
    requires FirstChild(i) >= n || !Less(h, MinChild(h, i, n), i)
    ensures forall c :: 0 < c < n && Parent(c) >= root ==> h[Parent(c)].frequency <= h[c].frequency
  {
    ChildrenOf(i);
  }

  /** One exchange of down keeps what down relies on, one slot further. */
  lemma DownStep<K>(h: Heap<K>, root: nat, i: nat, n: nat)
    requires i < |h| && n <= |h|
    requires DownReady(h, n, root, i)
    requires FirstChild(i) < n && Less(h, MinChild(h, i, n), i)
    ensures DownReady(Swap(h, i, MinChild(h, i, n)), n, root, MinChild(h, i, n))
  {
    var j := MinChild(h, i, n);
    var h' := Swap(h, i, j);
    forall c | 0 < c < n && Parent(c) >= root && Parent(c) != j
      ensures h'[Parent(c)].frequency <= h'[c].frequency
    {
      if c == j {
      } else if Parent(c) == i {
        assert h[j].frequency <= h[c].frequency;
      } else if c == i {
        assert h[Parent(i)].frequency <= h[j].frequency;
      } else {
        assert h[Parent(c)].frequency <= h[c].frequency;
      }
    }
    forall c | 0 < c < n && Parent(c) == j
      ensures h'[Parent(j)].frequency <= h'[c].frequency
    {
      assert h[j].frequency <= h[c].frequency;
    }
  }

  lemma {:induction false} DownRestores<K>(h: Heap<K>, root: nat, i: nat, n: nat)
    requires i < |h| && n <= |h|
    requires DownReady(h, n, root, i)
    ensures var r := SiftDown(h, i, n).0;
            forall c :: 0 < c < n && Parent(c) >= root ==> r[Parent(c)].frequency <= r[c].frequency
    decreases n - i
  {
    if FirstChild(i) >= n || !Less(h, MinChild(h, i, n), i) {
      DownStops(h, root, i, n);
    } else {
      var j := MinChild(h, i, n);
      DownStep(h, root, i, n);
      DownRestores(Swap(h, i, j), root, j, n);
    }
  }

  // ---------------------------------------------------------------------------
  // container/heap: Init, Push, Pop, Remove

  /** Sifts down every slot below k, from k - 1 to the root. */
  function HeapifyFrom<K>(h: Heap<K>, k: nat): (r: Heap<K>)
    requires k <= |h|
    ensures |r| == |h|
    ensures Entries(r) == Entries(h)
    ensures Indexed(h) ==> Indexed(r)
    decreases k
  {
    if k == 0 then h
    else HeapifyFrom(SiftDown(h, k - 1, |h|).0, k - 1)
  }

  /** One step of heapify: when every parent from slot k on is ordered,
      sifting slot k - 1 down orders every parent from k - 1 on. */
  lemma HeapifyStep<K>(h: Heap<K>, k: nat)
    requires 0 < k <= |h|
    requires forall c :: 0 < c < |h| && Parent(c) >= k ==> h[Parent(c)].frequency <= h[c].frequency
    ensures var r := SiftDown(h, k - 1, |h|).0;
            forall c :: 0 < c < |r| && Parent(c) >= k - 1 ==> r[Parent(c)].frequency <= r[c].frequency
  {
    assert DownReady(h, |h|, k - 1, k - 1);
    DownRestores(h, k - 1, k - 1, |h|);
  }

  lemma {:induction false} HeapifyOrders<K>(h: Heap<K>, k: nat)
    requires k <= |h|
    requires forall c :: 0 < c < |h| && Parent(c) >= k ==> h[Parent(c)].frequency <= h[c].frequency
    ensures IsHeap(HeapifyFrom(h, k))
    decreases k
  {
    if k == 0 {
      assert HeapifyFrom(h, k) == h;
      assert IsHeap(h);
    } else {
      var h1 := SiftDown(h, k - 1, |h|).0;
      HeapifyStep(h, k);
      HeapifyOrders(h1, k - 1);
      assert HeapifyFrom(h, k) == HeapifyFrom(h1, k - 1);
    }
  }

  /** heap.Init: establishes the heap property over arbitrary contents. */
  function Init<K>(h: Heap<K>): (r: Heap<K>)
    ensures |r| == |h|
    ensures Entries(r) == Entries(h)
    ensures Indexed(h) ==> Indexed(r)
    ensures IsHeap(r)
  {
    HeapifyOrders(h, |h| / 2);
    HeapifyFrom(h, |h| / 2)
  }

  /** heap.Push: appends the item and moves it up to its place. */
  function HeapPush<K>(h: Heap<K>, x: Item<K>): (r: Heap<K>)
    ensures |r| == |h| + 1
    ensures Entries(r) == Entries(h) + multiset{x.AsEntry()}
    ensures Indexed(h) ==> Indexed(r)
    ensures IsHeap(h) ==> IsHeap(r)
  {
    var h1 := Push(h, x);
    assert IsHeap(h) ==> IsHeap(Up(h1, |h|)) by {
      if IsHeap(h) {
        UpRestores(h1, |h|, |h1|);
      }
    }
    Up(h1, |h|)
  }

  /** Pushing an item no less frequent than the root keeps the root. */
  lemma PushKeepsRoot<K>(h: Heap<K>, x: Item<K>)
    requires 0 < |h| && h[0].frequency <= x.frequency
    ensures HeapPush(h, x)[0] == h[0]
  {
    UpKeepsRoot(Push(h, x), |h|);
  }

  /** heap.Pop: swaps the root with the last item, sifts the new root down
      among the others, and takes the old root off the end. */
  function HeapPop<K>(h: Heap<K>): (r: Popped<K>)
    requires |h| > 0
    ensures |r.rest| == |h| - 1
    ensures r.item.index == -1
    ensures Entries(r.rest) + multiset{r.item.AsEntry()} == Entries(h)
    ensures r.item.AsEntry() == h[0].AsEntry()
    ensures Indexed(h) ==> Indexed(r.rest)
    ensures IsHeap(h) ==> IsHeap(r.rest)
  {
    var n := |h| - 1;
    var h1 := Swap(h, 0, n);
    var h2 := SiftDown(h1, 0, n).0;
    assert IsHeap(h) ==> OrderedBelow(h2, n) by {
      if IsHeap(h) {
        assert DownReady(h1, n, 0, 0) by {
          forall c | 0 < c < n && Parent(c) != 0
            ensures h1[Parent(c)].frequency <= h1[c].frequency
          {
            assert h[Parent(c)].frequency <= h[c].frequency;
          }
        }
        DownRestores(h1, 0, 0, n);
      }
    }
    Pop(h2)
  }
  /** Pushing an item no less frequent than the root and popping at once
      takes off the old root. */
  lemma PushPopTakesRoot<K>(h: Heap<K>, x: Item<K>)
    requires 0 < |h| && h[0].frequency <= x.frequency
    ensures HeapPop(HeapPush(h, x)).item.AsEntry() == h[0].AsEntry()
  {
    PushKeepsRoot(h, x);
  }


  /** The step heap.Remove (and heap.Fix) takes on the first n slots: down
      from slot i and, if the item did not move, up. */
  function DownOrUp<K>(h: Heap<K>, i: nat, n: nat): (r: Heap<K>)
    requires i < n <= |h|
    ensures |r| == |h|
    ensures Entries(r) == Entries(h)
    ensures Indexed(h) ==> Indexed(r)
    ensures forall p :: n <= p < |h| ==> r[p] == h[p]
  {
    var (h2, moved) := Down(h, i, n);
    if moved then h2 else Up(h2, i)
  }

  /** heap.Remove: moves the last item into slot i, restores the order
      around it, and takes the removed item off the end. */
  function HeapRemove<K>(h: Heap<K>, i: nat): (r: Popped<K>)
    requires i < |h|
    ensures |r.rest| == |h| - 1
    ensures r.item.index == -1
    ensures r.item.AsEntry() == h[i].AsEntry()
    ensures Entries(r.rest) + multiset{r.item.AsEntry()} == Entries(h)
    ensures Indexed(h) ==> Indexed(r.rest)
    ensures IsHeap(h) ==> IsHeap(r.rest)
  {
    var n := |h| - 1;
    if n == i then Pop(h)
    else
      var h3 := DownOrUp(Swap(h, i, n), i, n);
      assert IsHeap(h) ==> OrderedBelow(h3, n) by {
        if IsHeap(h) {
          RemoveRestores(h, i, n);
        }
      }
      Pop(h3)
  }

  /** After heap.Remove put the last item, slot n, into slot i of a heap,
      down may start there. */
  lemma RemoveReady<K>(h: Heap<K>, i: nat, n: nat)
    requires i < n == |h| - 1 && IsHeap(h)
    ensures DownReady(Swap(h, i, n), n, i, i)
  {
    var h1 := Swap(h, i, n);
    forall c | 0 < c < n && Parent(c) >= i && Parent(c) != i
      ensures h1[Parent(c)].frequency <= h1[c].frequency
    {
      assert h[Parent(c)].frequency <= h[c].frequency;
    }
  }

  /** If down moved the item away from slot i, the first n slots are a heap. */
  lemma RemoveMovedDown<K>(h: Heap<K>, i: nat, n: nat)
    requires i < n == |h| - 1 && IsHeap(h)
    requires SiftDown(Swap(h, i, n), i, n).1 > i
    ensures OrderedBelow(SiftDown(Swap(h, i, n), i, n).0, n)
  {
    var h1 := Swap(h, i, n);
    var h2 := SiftDown(h1, i, n).0;
    RemoveReady(h, i, n);
    DownRestores(h1, i, i, n);
    forall c | 0 < c < n
      ensures h2[Parent(c)].frequency <= h2[c].frequency
    {
      var p := Parent(c);
      if p >= i {
      } else if c == i {
        var m := MinChild(h1, i, n);
        assert p == 0 || Parent(p) < i;
        assert h2[p] == h1[p] == h[p];
        assert h1[m] == h[m];
        assert h[p].frequency <= h[i].frequency <= h[m].frequency;
      } else {
        assert p == 0 || Parent(p) < i;
        assert h2[p] == h1[p] == h[p];
        assert h2[c] == h1[c] == h[c];
        assert h[p].frequency <= h[c].frequency;
      }
    }
  }

  /** If down left the item in slot i, up orders the first n slots. */
  lemma RemoveStayed<K>(h: Heap<K>, i: nat, n: nat)
    requires i < n == |h| - 1 && IsHeap(h)
    requires SiftDown(Swap(h, i, n), i, n).1 == i
    ensures OrderedBelow(Up(Swap(h, i, n), i), n)
  {
    var h1 := Swap(h, i, n);
    RemoveReady(h, i, n);
    DownRestores(h1, i, i, n);
    assert UpReady(h1, n, i) by {
      forall c | 0 < c < n && c != i
        ensures h1[Parent(c)].frequency <= h1[c].frequency
      {
        if Parent(c) < i {
          assert h[Parent(c)].frequency <= h[c].frequency;
        }
      }
      if i > 0 {
        forall c | 0 < c < n && Parent(c) == i
          ensures h1[Parent(i)].frequency <= h1[c].frequency
        {
          assert h[Parent(i)].frequency <= h[i].frequency <= h[c].frequency;
        }
      }
    }
    UpRestores(h1, i, n);
  }

  /** heap.Remove's restoring step turns a heap with its last item moved into
      slot i into a heap on the first n slots. */
  lemma RemoveRestores<K>(h: Heap<K>, i: nat, n: nat)
    requires i < n == |h| - 1 && IsHeap(h)
    ensures OrderedBelow(DownOrUp(Swap(h, i, n), i, n), n)
  {
    if SiftDown(Swap(h, i, n), i, n).1 > i {
      RemoveMovedDown(h, i, n);
    } else {
      RemoveStayed(h, i, n);
    }
  }

  /** In a heap the root is a least frequent item. */
  lemma {:induction false} RootIsMinimum<K>(h: Heap<K>, k: nat)
    requires IsHeap(h) && k < |h|
    ensures h[0].frequency <= h[k].frequency
    decreases k
  {
    if k > 0 {
      RootIsMinimum(h, Parent(k));
    }
  }

  /** The root's entry is at most as frequent as every entry of the heap. */
  lemma RootIsMinimumEntry<K>(h: Heap<K>)
    requires IsHeap(h) && |h| > 0
    ensures forall e :: e in Entries(h) ==> h[0].frequency <= e.frequency
  {
    forall e | e in Entries(h)
      ensures h[0].frequency <= e.frequency
    {
      var k :| 0 <= k < |h| && EntrySeq(h)[k] == e;
      RootIsMinimum(h, k);
    }
  }

  /** Finds the first slot from `from` on holding `key`, scanning from the
      front as the removal loop in lfuCache.go does. */
  function Find<K(==)>(h: Heap<K>, key: K, from: nat): (r: Option<nat>)
    requires from <= |h|
    ensures r.Some? ==> from <= r.value < |h| && h[r.value].key == key
    ensures r.Some? ==> forall p :: from <= p < r.value ==> h[p].key != key
    ensures r.None? ==> forall p :: from <= p < |h| ==> h[p].key != key
    decreases |h| - from
  {
    if from == |h| then None
    else if h[from].key == key then Some(from)
    else Find(h, key, from + 1)
  }
}
