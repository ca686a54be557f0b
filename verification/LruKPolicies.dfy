/** include/lru2_policy.hh */
module LruKPolicies {
  import opened Pages
  import opened Sequences
  import opened AccessTimes
  import opened Lists
  import opened Placement
  import opened Heaps
  import opened RecencyPools
  import opened RecencySpec
  import LruSpec
  import LruKSpec

  /** The arrays in the frames of the resident pages are res. */
  ghost predicate Stored(at: Placing, res: map<PageId, Times>)
    reads at.Values`lastAccess
  {
    res.Keys == at.Keys && forall p :: p in at ==> at[p] in at.Values && res[p] == at[p].lastAccess
  }

  /** The heap holds exactly the frames in use, and each knows its page. */
  ghost predicate HeapHolds(elems: set<ListNode>, at: Placing)
    reads elems`pageId
  {
    && (forall p :: p in at ==> at[p] in elems && at[p].pageId == p)
    && (forall n :: n in elems ==> n.pageId in at && at[n.pageId] == n)
    && |at| == |elems|
  }

  /** Frames in use are on no list. */
  ghost predicate Loose(elems: set<ListNode>)
    reads elems`prev, elems`next, elems`home
  {
    forall n :: n in elems ==> n.Detached()
  }

  /** Free frames have no accesses. */
  ghost predicate Cleared(nodes: seq<ListNode>, k: nat)
    reads nodes`lastAccess
  {
    forall i :: 0 <= i < |nodes| ==> nodes[i].lastAccess == Zeros(k)
  }

  lemma ClearedPush(n: ListNode, nodes: seq<ListNode>, k: nat)
    requires Cleared(nodes, k) && n.lastAccess == Zeros(k)
    ensures Cleared([n] + nodes, k)
  {
  }

  lemma ClearedInit(nodes: seq<ListNode>, k: nat)
    requires Cleared(nodes, k) && nodes != []
    ensures Cleared(Init(nodes), k) && Last(nodes).lastAccess == Zeros(k)
  {
  }

  /** The frames in the heap are those of the resident pages, and their arrays are res. */
  ghost predicate InHeap(elems: set<ListNode>, at: Placing, res: map<PageId, Times>)
    reads elems`prev, elems`next, elems`home, elems`pageId, elems`lastAccess
  {
    HeapHolds(elems, at) && Loose(elems) && at.Values <= elems && Stored(at, res)
  }

  lemma InHeapAt(elems: set<ListNode>, at: Placing, res: map<PageId, Times>, p: PageId)
    requires InHeap(elems, at, res) && p in at
    ensures at[p] in elems && p in res && res[p] == at[p].lastAccess && at[p].Detached()
    ensures at[p].pageId == p && forall q :: q in at && q != p ==> at[q] != at[p]
  {
  }

  lemma InHeapSize(elems: set<ListNode>, at: Placing, res: map<PageId, Times>)
    requires InHeap(elems, at, res)
    ensures |elems| == |at| == |res| && at.Keys == res.Keys
  {
  }

  lemma InHeapPopped(elems: set<ListNode>, at: Placing, res: map<PageId, Times>, n: ListNode)
    requires InHeap(elems, at, res) && n in elems
    ensures n.pageId in at && at[n.pageId] == n && n.pageId in res && res[n.pageId] == n.lastAccess && n.Detached()
    ensures InHeap(elems - {n}, at - {n.pageId}, res - {n.pageId})
    ensures |at - {n.pageId}| == |at| - 1
  {
  }

  lemma InHeapPushed(elems: set<ListNode>, at: Placing, res: map<PageId, Times>, n: ListNode)
    requires InHeap(elems, at, res) && n !in elems && n.pageId !in at && n.Detached()
    ensures InHeap(elems + {n}, at[n.pageId := n], res[n.pageId := n.lastAccess])
    ensures |at[n.pageId := n]| == |at| + 1
    ensures forall q :: q in at ==> at[q] != n
  {
  }

  /** The root of the heap has a least array. */
  lemma LeastIsVictim(elems: set<ListNode>, at: Placing, res: map<PageId, Times>, n: ListNode)
    requires InHeap(elems, at, res) && n in elems
    requires LeastOf(elems, n)
    ensures LruKSpec.IsVictim(res, n.pageId)
  {
  }

  /** Every frame is free, in use, or in hand on its way from one to the other. */
  ghost predicate Parts(all: set<ListNode>, free: set<ListNode>, used: set<ListNode>, hand: set<ListNode>) {
    all == free + used + hand && free !! used && hand !! used && hand !! free
  }

  lemma PartsMove(all: set<ListNode>, free: set<ListNode>, used: set<ListNode>, n: ListNode)
    ensures Parts(all, free, used, {}) && n in used ==> Parts(all, free, used - {n}, {n}) && n in all
    ensures Parts(all, free, used, {}) && n in free ==> Parts(all, free - {n}, used, {n}) && n in all
    ensures Parts(all, free, used, {}) && n !in all ==> Parts(all + {n}, free, used, {n})
    ensures Parts(all, free, used, {n}) ==> Parts(all, free + {n}, used, {}) && n !in free
  {
  }

  lemma PartsUse(all: set<ListNode>, free: set<ListNode>, used: set<ListNode>, n: ListNode)
    requires Parts(all, free, used, {n})
    ensures Parts(all, free, used + {n}, {}) && n !in used && |{n}| == 1
  {
  }

  lemma PartsInAll(all: set<ListNode>, free: set<ListNode>, used: set<ListNode>, hand: set<ListNode>)
    requires Parts(all, free, used, hand)
    ensures free <= all && used <= all && hand <= all && free !! used
  {
  }

  lemma PartsInHand(all: set<ListNode>, free: set<ListNode>, used: set<ListNode>, n: ListNode)
    requires Parts(all, free, used, {n})
    ensures n !in free && n !in used
  {
  }

  class LruKPolicy {
    const k: nat
    const capacity: nat
    const seqGrace: nat
    const heap: UpdatableHeap
    var seqnum: nat
    const freeList: List
    const recent: RecencyPool?    // null is the NullValuedRecencyStore

    ghost var at: Placing
    ghost var res: map<PageId, Times>       // the arrays of the resident pages
    ghost var recKeys: seq<PageId>          // what the store remembers, and under which arrays
    ghost var recSaved: map<PageId, Times>
    ghost var frames: set<ListNode>
    ghost const storeCells: set<ListNode>   // the nodes of the store

    ghost function Abs(): LruKSpec.LruK
      reads this, recent
    {
      var recCap := if recent == null then 0 else recent.capacity;
      LruKSpec.LruK(k, capacity, seqGrace, seqnum, res, recCap, recKeys, recSaved)
    }

    ghost function Objects(): set<object> {
      {this, heap, heap.heap, freeList} + if recent == null then {} else {recent, recent.list}
    }

    ghost function Cells(): set<ListNode>
      reads this`frames
    {
      frames + storeCells
    }

    /** The store keeps its own nodes. */
    ghost predicate StoreValid()
      reads this`recKeys, this`recSaved, recent, if recent == null then {} else {recent.list}
      reads storeCells`prev, storeCells`next, storeCells`home, storeCells`pageId
    {
      if recent == null then storeCells == {} && recKeys == [] && recSaved == map[]
      else
        && storeCells == recent.cells && recent.Valid() && recent.capacity >= 1
        && recKeys == recent.keys && recSaved == recent.Saved()
    }

    /** The free frames have no accesses. */
    ghost predicate FreeValid()
      reads freeList
      reads freeList.Cells()`prev, freeList.Cells()`next, freeList.Cells()`home, freeList.Cells()`lastAccess
    {
      freeList.Valid() && freeList.size == |freeList.nodes| && Cleared(freeList.nodes, k)
    }

    ghost predicate HeapValid()
      reads this`at, this`res, heap, heap.heap
      reads heap.elems`prev, heap.elems`next, heap.elems`home
      reads heap.elems`pageId, heap.elems`lastAccess, heap.elems`heapId
    {
      heap.Valid() && heap.heap.Length == capacity && InHeap(heap.elems, at, res)
    }

    /** All frames but those in hand are free or in the heap. */
    ghost predicate Framed(hand: set<ListNode>)
      reads this`at, this`res, this`frames, freeList, heap, heap.heap
      reads frames`prev, frames`next, frames`home, frames`pageId, frames`lastAccess, frames`heapId
    {
      && Parts(frames, freeList.Cells(), heap.elems, hand)
      && FreeValid() && HeapValid()
      && |freeList.nodes| + |at| + |hand| <= capacity
    }

    /** Everything but the timestamps. */
    ghost predicate Rep(hand: set<ListNode>)
      reads this`at, this`res, this`frames, this`recKeys, this`recSaved, heap, heap.heap, freeList
      reads if recent == null then {} else {recent, recent.list}
      reads Cells()`prev, Cells()`next, Cells()`home, Cells()`pageId, Cells()`lastAccess, Cells()`heapId
    {
      Framed(hand) && StoreValid() && storeCells !! frames && (recent != null ==> recent.list != freeList)
    }

    ghost predicate Valid()
      reads Objects()
      reads Cells()`prev, Cells()`next, Cells()`home, Cells()`pageId, Cells()`lastAccess, Cells()`heapId
    {
      Rep({}) && LruKSpec.Inv(Abs()) && INVALID_ID !in at
    }

    ghost predicate Ready()
      reads this, freeList
    {
      |freeList.nodes| + |at| == capacity
    }

    constructor (k: nat, c: nat, grace: nat, useStore: bool, recencyCap: nat)
      requires k >= 2 && c > 0 && (useStore ==> recencyCap > 0)
      ensures Valid() && Abs() == LruKSpec.Start(k, c, grace, if useStore then recencyCap else 0)
      ensures at == map[] && freeList.nodes == [] && fresh(heap) && fresh(heap.heap) && fresh(freeList)
      ensures (recent != null ==> fresh(recent) && fresh(recent.list)) && fresh(Cells())
    {
      hide UpdatableHeap.Valid, List.Valid, List.Cells, RecencyPool.Valid, LruKSpec.Inv, RecencyPool.Saved, Rep;
      this.k, capacity, seqGrace, seqnum := k, c, grace, 1;
      var store := NewStore(useStore, recencyCap);
      recent := store;
      storeCells := if store == null then {} else store.cells;
      heap := new UpdatableHeap(c);
      freeList := new List();
      at, res, recKeys, recSaved := map[], map[], [], map[];
      new;
      frames := freeList.Cells();
      NoFrames();
      LruKSpec.StartKeepsInv(k, c, grace, if useStore then recencyCap else 0);
    }

    lemma NoFrames()
      requires frames == freeList.Cells() && StoreValid() && storeCells !! frames
      requires recent != null ==> recent.list != freeList
      requires freeList.Valid() && freeList.size == 0 && freeList.nodes == []
      requires heap.Valid() && heap.elems == {} && heap.heap.Length == capacity && at == map[] && res == map[]
      ensures Rep({})
    {
    }

    /** A detached node is not among the nodes of the store. */
    lemma NotStored(n: ListNode)
      requires StoreValid() && n.Detached()
      ensures n !in storeCells
    {
    }

    method PushFree(n: ListNode)
      requires FreeValid() && n.Detached()
      modifies freeList, freeList.Cells()`prev, freeList.Cells()`next, n`prev, n`next, n`home, n`lastAccess
      ensures FreeValid() && freeList.nodes == [n] + old(freeList.nodes)
      ensures freeList.Cells() == old(freeList.Cells()) + {n}
    {
      hide List.Valid, Distinct, Cleared, Zeros;
      ghost var ns := freeList.nodes;
      freeList.NotHere(n);
      n.lastAccess := ClearedTimes(k);
      ElemsCons(n, ns);
      freeList.PushFront(n);
      ClearedPush(n, ns, k);
    }

    /** The work of register_metadata and of the end of evict_one. */
    method GiveFree(n: ListNode)
      requires Framed({n}) && n.Detached()
      modifies freeList, freeList.Cells()`prev, freeList.Cells()`next, n`prev, n`next, n`home, n`lastAccess
      ensures Framed({}) && freeList.nodes == [n] + old(freeList.nodes)
    {
      hide Parts, FreeValid, HeapValid, List.Cells, ListNode.Detached;
      PartsMove(frames, freeList.Cells(), heap.elems, n);
      PartsInAll(frames, freeList.Cells(), heap.elems, {n});
      PushFree(n);
    }

    lemma FramedSets(hand: set<ListNode>)
      requires Framed(hand)
      ensures freeList.Cells() <= frames && heap.elems <= frames && hand <= frames
    {
      hide FreeValid, HeapValid, List.Cells;
    }

    ghost method AddFrame(n: ListNode)
      requires Framed({}) && n.Detached() && n !in frames && |freeList.nodes| + |at| < capacity
      modifies this`frames
      ensures Framed({n}) && frames == old(frames) + {n}
    {
      hide Parts, FreeValid, HeapValid, List.Cells, ListNode.Detached;
      PartsMove(frames, freeList.Cells(), heap.elems, n);
      frames := frames + {n};
    }

    method RegisterMetadata(meta: ListNode)
      requires Valid() && !Ready() && meta.Detached() && meta !in frames
      modifies this`frames, freeList, frames`prev, frames`next, meta`prev, meta`next, meta`home, meta`lastAccess
      ensures Valid() && Abs() == old(Abs()) && at == old(at)
      ensures freeList.nodes == [meta] + old(freeList.nodes)
      ensures frames == old(frames) + {meta}
    {
      hide Framed, StoreValid, List.Cells, ListNode.Detached, LruKSpec.Inv;
      FramedSets({});
      NotStored(meta);
      RoomForFrame();
      AddFrame(meta);
      GiveFree(meta);
    }

    lemma RoomForFrame()
      requires Framed({}) && !Ready()
      ensures |freeList.nodes| + |at| < capacity
    {
    }

    lemma HeapSize()
      requires HeapValid()
      ensures heap.size == |at| == |res| && at.Keys == res.Keys
    {
    }

    lemma HasElements()
      requires HeapValid() && res != map[]
      ensures heap.size > 0
    {
      HeapSize();
    }

    method PopHeap() returns (victim: ListNode)
      requires HeapValid() && res != map[]
      modifies this`at, this`res, heap, heap.heap, heap.elems`heapId
      ensures HeapValid() && victim in old(heap.elems) && heap.elems == old(heap.elems) - {victim}
      ensures victim.Detached() && LruKSpec.IsVictim(old(res), victim.pageId)
      ensures victim.lastAccess == old(res)[victim.pageId]
      ensures victim.pageId in old(at) && old(at)[victim.pageId] == victim
      ensures at == old(at) - {victim.pageId} && res == old(res) - {victim.pageId} && |at| == |old(at)| - 1
    {
      hide UpdatableHeap.Valid, InHeap, LeastOf, ListNode.Detached, LruKSpec.IsVictim;
      HasElements();
      ghost var es, at0, res0 := heap.elems, at, res;
      victim := heap.Pop();
      LeastIsVictim(es, at0, res0, victim);
      InHeapPopped(es, at0, res0, victim);
      at, res := at - {victim.pageId}, res - {victim.pageId};
    }

    method EnterHeap(n: ListNode)
      requires HeapValid() && n !in heap.elems && n.Detached() && n.pageId !in at && |at| < capacity
      modifies this`at, this`res, heap, heap.heap, heap.elems`heapId, n`heapId
      ensures HeapValid() && heap.elems == old(heap.elems) + {n}
      ensures at == old(at)[n.pageId := n] && res == old(res)[n.pageId := n.lastAccess]
      ensures |at| == |old(at)| + 1
    {
      hide UpdatableHeap.Valid, InHeap, ListNode.Detached;
      HeapSize();
      InHeapPushed(heap.elems, at, res, n);
      heap.Push(n);
      at, res := at[n.pageId := n], res[n.pageId := n.lastAccess];
    }

    /** heap_.pop() */
    method TakeVictim() returns (victim: ListNode)
      requires Framed({}) && res != map[]
      modifies this`at, this`res, heap, heap.heap, frames`heapId
      ensures Framed({victim}) && freeList.nodes == old(freeList.nodes) && victim in frames
      ensures victim.Detached() && LruKSpec.IsVictim(old(res), victim.pageId)
      ensures victim.lastAccess == old(res)[victim.pageId]
      ensures victim.pageId in old(at) && old(at)[victim.pageId] == victim
      ensures at == old(at) - {victim.pageId} && res == old(res) - {victim.pageId}
    {
      hide Parts, FreeValid, HeapValid, ListNode.Detached, List.Cells, LruKSpec.IsVictim;
      PartsInAll(frames, freeList.Cells(), heap.elems, {});
      victim := PopHeap();
      PartsMove(frames, freeList.Cells(), old(heap.elems), victim);
    }

    /** free_list_.pop_back() */
    method PopFree() returns (n: ListNode)
      requires FreeValid() && freeList.nodes != []
      modifies freeList, freeList.Cells()`prev, freeList.Cells()`next, freeList.Cells()`home
      ensures FreeValid() && freeList.nodes == Init(old(freeList.nodes)) && n == Last(old(freeList.nodes))
      ensures n.Detached() && n.lastAccess == Zeros(k)
      ensures freeList.Cells() == old(freeList.Cells()) - {n} && n in old(freeList.Cells())
    {
      hide List.Valid, Distinct, Cleared, Zeros;
      ghost var ns := freeList.nodes;
      freeList.NodesDistinct();
      LastIsNew(ns);
      ElemsInit(ns);
      ClearedInit(ns, k);
      n := freeList.PopBack();
    }

    method TakeFree() returns (n: ListNode)
      requires Framed({}) && freeList.nodes != []
      modifies freeList, frames`prev, frames`next, frames`home
      ensures Framed({n}) && freeList.nodes == Init(old(freeList.nodes)) && n in frames
      ensures n.Detached() && n.lastAccess == Zeros(k) && n == Last(old(freeList.nodes))
    {
      hide Parts, FreeValid, HeapValid, ListNode.Detached, List.Cells, Zeros;
      PartsInAll(frames, freeList.Cells(), heap.elems, {});
      n := PopFree();
      PartsMove(frames, old(freeList.Cells()), heap.elems, n);
    }

    /** heap_.push(&res) */
    method UseFrame(n: ListNode)
      requires Framed({n}) && n.Detached() && n.pageId !in at
      modifies this`at, this`res, heap, heap.heap, heap.elems`heapId, n`heapId
      ensures Framed({}) && freeList.nodes == old(freeList.nodes)
      ensures at == old(at)[n.pageId := n] && res == old(res)[n.pageId := n.lastAccess]
    {
      hide Parts, FreeValid, HeapValid, ListNode.Detached, List.Cells;
      PartsUse(frames, freeList.Cells(), heap.elems, n);
      EnterHeap(n);
    }

    /** A frame in hand holds no page, and one in use is not free. */
    lemma InHand(n: ListNode)
      requires Framed({n})
      ensures forall q :: q in at ==> at[q] != n
    {
      hide FreeValid, UpdatableHeap.Valid, List.Cells, HeapHolds, Loose, Stored;
    }

    /** The part of touch that moves the frame in the heap. */
    method RaiseKey(meta: ListNode)
      requires heap.Valid() && meta in heap.elems
      requires meta.lastAccess != [] && Sorted(meta.lastAccess) && Last(meta.lastAccess) < seqnum
      modifies heap, heap.heap, heap.elems`heapId, meta`lastAccess
      ensures heap.Valid() && heap.elems == old(heap.elems) && meta.lastAccess == Shifted(old(meta.lastAccess), seqnum)
    {
      hide UpdatableHeap.Valid, HeapOrder.Ordered, HeapOrder.OrderedBut, Less, Sorted;
      TouchRaises(meta.lastAccess, seqnum);
      LessAsymmetric(meta.lastAccess, Shifted(meta.lastAccess, seqnum));
      meta.UpdateLatest(seqnum);
      heap.KeyOverwritten(meta);
      HeapOrder.Raised(heap.keys, meta.heapId, meta.lastAccess);
      heap.Update(meta.heapId, meta);
    }

    method TouchHeap(meta: ListNode, ghost p: PageId)
      requires HeapValid() && p in at && at[p] == meta
      requires meta.lastAccess != [] && Sorted(meta.lastAccess) && Last(meta.lastAccess) < seqnum
      modifies this`res, heap, heap.heap, heap.elems`heapId, meta`lastAccess
      ensures HeapValid() && heap.elems == old(heap.elems)
      ensures p in old(res) && old(res)[p] == old(meta.lastAccess)
      ensures res == old(res)[p := Shifted(old(meta.lastAccess), seqnum)]
    {
      hide UpdatableHeap.Valid, Sorted, Shifted, HeapHolds, Loose;
      InHeapAt(heap.elems, at, res, p);
      RaiseKey(meta);
      res := res[p := meta.lastAccess];
    }

    /** The frame of a resident page is not free. */
    lemma InUse(p: PageId)
      requires Framed({}) && p in at
      ensures at[p] in frames && at[p].pageId == p && p in res && res[p] == at[p].lastAccess
      ensures at.Keys == res.Keys
    {
      hide FreeValid, UpdatableHeap.Valid, List.Cells, InHeap;
      InHeapAt(heap.elems, at, res, p);
      InHeapSize(heap.elems, at, res);
    }

    lemma FrameOf(p: PageId)
      requires Valid() && p in at
      ensures at[p] in frames && at[p].pageId == p
    {
      hide Framed, StoreValid;
      InUse(p);
    }

    method TouchFrame(meta: ListNode, ghost p: PageId)
      requires Framed({}) && p in at && at[p] == meta
      requires meta.lastAccess != [] && Sorted(meta.lastAccess) && Last(meta.lastAccess) < seqnum
      modifies this`res, heap, heap.heap, frames`heapId, meta`lastAccess
      ensures Framed({}) && res == old(res)[p := Shifted(old(meta.lastAccess), seqnum)]
    {
      hide Parts, FreeValid, HeapValid, List.Cells, Sorted, Shifted;
      PartsInAll(frames, freeList.Cells(), heap.elems, {});
      NotFree(p);
      TouchHeap(meta, p);
    }

    lemma NotFree(p: PageId)
      requires Framed({}) && p in at
      ensures at[p] !in freeList.Cells()
    {
      hide FreeValid, UpdatableHeap.Valid, List.Cells, InHeap;
      InHeapAt(heap.elems, at, res, p);
    }

    method TouchRep(meta: ListNode, ghost p: PageId)
      requires Rep({}) && p in at && at[p] == meta
      requires meta.lastAccess != [] && Sorted(meta.lastAccess) && Last(meta.lastAccess) < seqnum
      modifies this`res, heap, heap.heap, frames`heapId, meta`lastAccess
      ensures Rep({}) && res == old(res)[p := Shifted(old(meta.lastAccess), seqnum)]
    {
      hide Framed, StoreValid, Sorted, Shifted;
      NotInStore(p);
      TouchFrame(meta, p);
    }

    lemma NotInStore(p: PageId)
      requires Rep({}) && p in at
      ensures at[p] !in storeCells && at[p] in frames && p in res && res[p] == at[p].lastAccess
    {
      hide Framed, StoreValid;
      InUse(p);
    }

    /** LRUKPolicy::touch; get calls it while the array of p may still be empty. */
    method TouchExcept(meta: ListNode, ghost p: PageId)
      requires Rep({}) && LruKSpec.InvExcept(Abs(), p) && p in at && at[p] == meta && INVALID_ID !in at
      modifies this`seqnum, this`res, heap, heap.heap, frames`heapId, meta`lastAccess
      ensures Valid() && Abs() == LruKSpec.Touch(old(Abs()), p)
    {
      hide Rep, LruKSpec.InvExcept, LruKSpec.Inv, Sorted;
      LruKSpec.TouchedKey(Abs(), p);
      LruKSpec.TouchKeepsInv(Abs(), p);
      NotInStore(p);
      if meta.lastAccess[k - 1] != 0 && seqnum - meta.lastAccess[k - 1] <= seqGrace {
        return;
      }
      TouchRep(meta, p);
      seqnum := seqnum + 1;
    }

    /** LRUKPolicy::touch on a resident page. */
    method Touch(meta: ListNode, ghost p: PageId)
      requires Valid() && p in at && at[p] == meta
      modifies this`seqnum, this`res, heap, heap.heap, frames`heapId, meta`lastAccess
      ensures Valid() && p in old(res) && Abs() == LruKSpec.Access(old(Abs()), p)
    {
      hide Framed, StoreValid, List.Cells, LruKSpec.InvExcept, LruKSpec.Inv, LruKSpec.Touch;
      InUse(p);
      LruKSpec.InvIsInvExcept(Abs(), p);
      TouchExcept(meta, p);
    }

    /** recent_pool_.insert; the null store does nothing. */
    method RememberEvicted(page: PageId, value: Times)
      requires StoreValid() && page != INVALID_ID
      modifies this`recKeys, this`recSaved, if recent == null then {} else {recent, recent.list}
      modifies storeCells`prev, storeCells`next, storeCells`home, storeCells`pageId
      ensures StoreValid()
      ensures recKeys == LruSpec.Bump(old(recKeys), page, if recent == null then 0 else recent.capacity)
      ensures recSaved == Remember(old(recSaved), recKeys, page, value)
    {
      hide RecencyPool.Valid;
      if recent != null {
        recent.Insert(page, value);
        recKeys, recSaved := recent.keys, recent.Saved();
      }
    }

    /** The record of page, if the store has one. */
    method TakeRecord(page: PageId) returns (found: bool, value: Times)
      requires StoreValid()
      modifies this`recKeys, this`recSaved, if recent == null then {} else {recent, recent.list}
      modifies storeCells`prev, storeCells`next, storeCells`home, storeCells`pageId
      ensures StoreValid()
      ensures found <==> page in old(recSaved)
      ensures found ==> value == old(recSaved)[page]
      ensures recKeys == Remove(old(recKeys), page) && recSaved == old(recSaved) - {page}
    {
      hide RecencyPool.Valid, RecencyPool.Saved;
      found, value := false, [];
      if recent != null {
        found := recent.Contains(page);
        if found {
          value := recent.Take(page);
          recKeys, recSaved := recent.keys, recent.Saved();
          return;
        }
      }
      RemoveAbsent(recKeys, page);
    }

    method StartEviction() returns (victim: ListNode)
      requires Rep({}) && res != map[]
      modifies this`at, this`res, heap, heap.heap, frames`heapId
      ensures Rep({victim}) && freeList.nodes == old(freeList.nodes) && victim in frames
      ensures victim.Detached() && LruKSpec.IsVictim(old(res), victim.pageId)
      ensures victim.lastAccess == old(res)[victim.pageId]
      ensures victim.pageId in old(at) && old(at)[victim.pageId] == victim
      ensures at == old(at) - {victim.pageId} && res == old(res) - {victim.pageId}
    {
      hide Framed, StoreValid, ListNode.Detached, LruKSpec.IsVictim;
      victim := TakeVictim();
    }

    method FinishEviction(victim: ListNode)
      requires Rep({victim}) && victim.Detached() && victim.pageId != INVALID_ID
      modifies this`recKeys, this`recSaved, freeList, if recent == null then {} else {recent, recent.list}
      modifies Cells()`prev, Cells()`next, Cells()`home, storeCells`pageId, victim`lastAccess
      ensures Rep({}) && freeList.nodes == [victim] + old(freeList.nodes) && victim.pageId == old(victim.pageId)
      ensures recKeys == LruSpec.Bump(old(recKeys), old(victim.pageId), if recent == null then 0 else recent.capacity)
      ensures recSaved == Remember(old(recSaved), recKeys, old(victim.pageId), old(victim.lastAccess))
    {
      hide Framed, StoreValid, List.Cells, ListNode.Detached, LruSpec.Bump, Remember;
      FramedSets({victim});
      RememberEvicted(victim.pageId, victim.lastAccess);
      GiveFree(victim);
    }

    /** The work of evict_one. */
    method EvictLeast() returns (victim: ListNode)
      requires Rep({}) && res != map[] && INVALID_ID !in at
      modifies this`at, this`res, this`recKeys, this`recSaved, heap, heap.heap, freeList
      modifies if recent == null then {} else {recent, recent.list}
      modifies Cells()`prev, Cells()`next, Cells()`home, storeCells`pageId, frames`heapId, frames`lastAccess
      ensures Rep({}) && freeList.nodes == [victim] + old(freeList.nodes) && victim in frames
      ensures victim.pageId in old(at) && old(at)[victim.pageId] == victim && at == old(at) - {victim.pageId}
      ensures LruKSpec.IsVictim(old(res), victim.pageId) && res == old(res) - {victim.pageId}
      ensures recKeys == LruSpec.Bump(old(recKeys), victim.pageId, if recent == null then 0 else recent.capacity)
      ensures recSaved == Remember(old(recSaved), recKeys, victim.pageId, old(res)[victim.pageId])
    {
      hide Rep, ListNode.Detached, LruKSpec.IsVictim, LruSpec.Bump, Remember;
      victim := StartEviction();
      FinishEviction(victim);
    }

    /** LRUKPolicy::evict_one: the array of the victim moves to the store. */
    method EvictOne() returns (victim: ListNode)
      requires Valid() && res != map[]
      modifies this`at, this`res, this`recKeys, this`recSaved, heap, heap.heap, freeList
      modifies if recent == null then {} else {recent, recent.list}
      modifies Cells()`prev, Cells()`next, Cells()`home, storeCells`pageId, frames`heapId, frames`lastAccess
      ensures Valid() && Abs() == LruKSpec.Evict(old(Abs()))
      ensures victim.pageId == LruKSpec.Victim(old(res)) && at == old(at) - {victim.pageId}
      ensures victim.pageId in old(at) && old(at)[victim.pageId] == victim
      ensures freeList.nodes == [victim] + old(freeList.nodes) && victim in frames
    {
      hide Rep, ListNode.Detached, LruKSpec.Inv, LruKSpec.IsVictim, LruSpec.Bump, Remember, LruKSpec.Evict;
      LruKSpec.EvictKeepsInv(Abs());
      victim := EvictLeast();
      OnlyVictim(old(Abs()), victim.pageId);
    }

    lemma OnlyVictim(s: LruKSpec.LruK, v: PageId)
      requires LruKSpec.Inv(s) && LruKSpec.IsVictim(s.res, v)
      ensures s.res != map[] && v in s.res && v == LruKSpec.Victim(s.res)
      ensures var recent := LruSpec.Bump(s.recent, v, s.recCap);
              LruKSpec.Evict(s) ==
                s.(res := s.res - {v}, recent := recent, saved := Remember(s.saved, recent, v, s.res[v]))
    {
      LruKSpec.VictimUnique(s, v);
    }

    lemma KnownSizes()
      requires Rep({})
      ensures |at| == |res| && freeList.Valid() && freeList.size == |freeList.nodes|
    {
      hide Rep;
      KnownKeys();
    }

    lemma KnownKeys()
      requires Rep({})
      ensures at.Keys == res.Keys && |at| == |res|
      ensures freeList.Valid() && freeList.size == |freeList.nodes| && freeList.Cells() <= frames
    {
      hide UpdatableHeap.Valid, List.Valid, List.Cells, InHeap, StoreValid, Cleared;
      InHeapSize(heap.elems, at, res);
    }

    lemma PlacedOnce()
      requires Rep({})
      ensures at.Keys == res.Keys && Injective(at)
    {
      hide UpdatableHeap.Valid, List.Valid, List.Cells, StoreValid, Cleared, Stored, Loose;
      InHeapSize(heap.elems, at, res);
    }

    /** A frame in hand can be written to freely. */
    method Stamp(n: ListNode, page: PageId, found: bool, value: Times)
      requires Framed({n})
      modifies n`lastAccess, n`pageId
      ensures Framed({n}) && n.pageId == page && n.lastAccess == if found then value else old(n.lastAccess)
    {
      hide FreeValid, HeapValid, List.Cells;
      PartsInHand(frames, freeList.Cells(), heap.elems, n);
      if found {
        n.lastAccess := value;
      }
      n.pageId := page;
    }

    /** free_list_.pop_back(), with the links of the frame. */
    method StartGet() returns (n: ListNode)
      requires Rep({}) && freeList.nodes != []
      modifies freeList, frames`prev, frames`next, frames`home
      ensures Rep({n}) && freeList.nodes == Init(old(freeList.nodes)) && n in frames && n !in storeCells
      ensures n.Detached() && n.lastAccess == Zeros(k) && n == Last(old(freeList.nodes))
    {
      hide Framed, StoreValid, ListNode.Detached, Zeros;
      n := TakeFree();
    }

    /** The frame takes over the record of page, and enters the heap. */
    method FinishGet(n: ListNode, page: PageId)
      requires Rep({n}) && n.Detached() && n in frames && n !in storeCells && page !in at
      modifies this`at, this`res, this`recKeys, this`recSaved, heap, heap.heap
      modifies if recent == null then {} else {recent, recent.list}
      modifies storeCells`prev, storeCells`next, storeCells`home, storeCells`pageId
      modifies frames`heapId, n`lastAccess, n`pageId
      ensures Rep({}) && at == old(at)[page := n] && freeList.nodes == old(freeList.nodes)
      ensures res == old(res)[page := if page in old(recSaved) then old(recSaved)[page] else old(n.lastAccess)]
      ensures recKeys == Remove(old(recKeys), page) && recSaved == old(recSaved) - {page}
    {
      hide Framed, StoreValid, List.Cells, ListNode.Detached, Remove;
      var found, value := TakeRecord(page);
      Stamp(n, page, found, value);
      FramedSets({n});
      UseFrame(n);
    }

    /** The part of get that takes a free frame, up to the touch. */
    method Admit(page: PageId) returns (n: ListNode)
      requires Rep({}) && freeList.nodes != [] && page !in at && page !in res
      modifies this`at, this`res, this`recKeys, this`recSaved, heap, heap.heap, freeList
      modifies if recent == null then {} else {recent, recent.list}
      modifies Cells()`prev, Cells()`next, Cells()`home, Cells()`pageId, frames`heapId, frames`lastAccess
      ensures Rep({}) && Abs() == LruKSpec.Admit(old(Abs()), page)
      ensures freeList.nodes == Init(old(freeList.nodes)) && n == Last(old(freeList.nodes)) && n in frames
      ensures Placed(old(at), at, page, n, null, page)
    {
      hide Rep, ListNode.Detached, Zeros, Remove;
      n := StartGet();
      NotHeld(n);
      FinishGet(n, page);
    }

    lemma NotHeld(n: ListNode)
      requires Rep({n})
      ensures forall q :: q in at ==> at[q] != n
    {
      hide Framed, StoreValid;
      InHand(n);
    }

    /** get with a free frame at hand. */
    method TakePage(page: PageId) returns (n: ListNode)
      requires Valid() && LruKSpec.HasRoom(Abs()) && freeList.nodes != [] && page !in at && page != INVALID_ID
      modifies this`at, this`res, this`recKeys, this`recSaved, this`seqnum, heap, heap.heap, freeList
      modifies if recent == null then {} else {recent, recent.list}
      modifies Cells()`prev, Cells()`next, Cells()`home, Cells()`pageId, frames`heapId, frames`lastAccess
      ensures Valid() && page !in old(res) && Abs() == LruKSpec.Get(old(Abs()), page)
      ensures freeList.nodes == Init(old(freeList.nodes)) && n == Last(old(freeList.nodes)) && n in frames
      ensures Placed(old(at), at, page, n, null, page)
    {
      hide Rep, LruKSpec.Inv, LruKSpec.InvExcept, LruKSpec.Admit, LruKSpec.Touch;
      KnownKeys();
      LruKSpec.AdmitKeepsInv(Abs(), page);
      n := Admit(page);
      TouchExcept(n, page);
    }

    /** The first statement of get. */
    method MakeRoom() returns (evicted: ListNode?, ghost victim: PageId)
      requires Valid() && Ready()
      modifies this`at, this`res, this`recKeys, this`recSaved, heap, heap.heap, freeList
      modifies if recent == null then {} else {recent, recent.list}
      modifies Cells()`prev, Cells()`next, Cells()`home, storeCells`pageId, frames`heapId, frames`lastAccess
      ensures Valid() && Ready() && LruKSpec.HasRoom(Abs()) && freeList.nodes != []
      ensures LruKSpec.HasRoom(old(Abs())) || old(res) != map[]
      ensures Abs() == LruKSpec.WithRoom(old(Abs()))
      ensures evicted != null <==> !LruKSpec.HasRoom(old(Abs()))
      ensures evicted == null ==> at == old(at) && freeList.nodes == old(freeList.nodes)
      ensures evicted != null ==>
                && victim in old(at) && old(at)[victim] == evicted && at == old(at) - {victim}
                && old(freeList.nodes) == [] && freeList.nodes == [evicted]
    {
      hide Rep, LruKSpec.Inv, LruKSpec.Evict;
      KnownSizes();
      LruKSpec.WithRoomKeepsInv(Abs());
      evicted := null;
      victim := 0;
      if freeList.Empty() {
        evicted := EvictOne();
        victim := evicted.pageId;
        KnownSizes();
        RemovePlaced(old(at), victim);
      }
    }

    lemma RemovePlaced(m: Placing, p: PageId)
      requires p in m
      ensures |m - {p}| == |m| - 1
    {
    }

    method Get(page: PageId) returns (n: ListNode, evicted: ListNode?, ghost victim: PageId)
      requires Valid() && Ready() && page !in at && page != INVALID_ID
      modifies this`at, this`res, this`recKeys, this`recSaved, this`seqnum, heap, heap.heap, freeList
      modifies if recent == null then {} else {recent, recent.list}
      modifies Cells()`prev, Cells()`next, Cells()`home, Cells()`pageId, frames`heapId, frames`lastAccess
      ensures Valid() && Ready() && page !in old(res) && Abs() == LruKSpec.Get(old(Abs()), page)
      ensures evicted != null <==> !LruKSpec.HasRoom(old(Abs()))
      ensures TakesFree(old(freeList.nodes), freeList.nodes, n)
      ensures Placed(old(at), at, page, n, evicted, victim) && n in frames
    {
      hide Rep, LruKSpec.Inv, LruKSpec.Admit, LruKSpec.Touch, LruKSpec.WithRoom, LruKSpec.HasRoom, Placed;
      KnownKeys();
      LruKSpec.GetWithRoom(Abs(), page);
      evicted, victim := MakeRoom();
      ghost var at1 := at;
      n := TakePage(page);
      GotPage(old(at), at1, at, page, n, evicted, victim);
      victim := if evicted == null then page else victim;
    }

    lemma GotPage(at0: Placing, at1: Placing, at2: Placing, p: PageId, n: ListNode, evicted: ListNode?, victim: PageId)
      requires p !in at0 && Placed(at1, at2, p, n, null, p)
      requires evicted == null ==> at1 == at0
      requires evicted != null ==> victim in at0 && at0[victim] == evicted == n && at1 == at0 - {victim}
      ensures Placed(at0, at2, p, n, evicted, if evicted == null then p else victim) && |at2| == |at1| + 1
    {
    }
  }
}
