/** include/lru_policy.hh */
module LruPolicies {
  import opened Pages
  import opened Sequences
  import opened Lists
  import opened Placement
  import LruSpec

  class LruPolicy {
    const freeList: List
    const lruList: List
    const totalCap: nat

    ghost var abs: seq<PageId>      // resident pages, most recently used first
    ghost var at: Placing           // their frames
    ghost var touches: nat          // how often a frame was touched

    ghost function Cells(): set<ListNode>
      reads freeList, lruList
    {
      freeList.Cells() + lruList.Cells()
    }

    ghost predicate Valid()
      reads this, freeList, lruList, Cells()`prev, Cells()`next, Cells()`home
    {
      && freeList != lruList
      && freeList.Valid() && freeList.size == |freeList.nodes|
      && lruList.Valid() && lruList.size == |lruList.nodes| + touches
      && Covers(abs, at)
      && Holds(lruList.nodes, abs, at)
      && |freeList.nodes| + |abs| <= totalCap
    }

    /** Every frame has been registered. */
    ghost predicate Ready()
      reads this, freeList
    {
      totalCap > 0 && |freeList.nodes| + |abs| == totalCap
    }

    constructor (capacity: nat)
      ensures Valid() && abs == [] && at == map[] && freeList.nodes == [] && totalCap == capacity && touches == 0
      ensures fresh(freeList) && fresh(lruList) && fresh(Cells())
    {
      freeList := new List();
      lruList := new List();
      totalCap := capacity;
      abs, at, touches := [], map[], 0;
    }

    method RegisterMetadata(meta: ListNode)
      requires Valid() && meta.Detached() && |freeList.nodes| + |abs| < totalCap
      modifies this, freeList, Cells()`prev, Cells()`next, meta`prev, meta`next, meta`home
      ensures Valid() && abs == old(abs) && at == old(at) && touches == old(touches)
      ensures freeList.nodes == [meta] + old(freeList.nodes) && lruList.nodes == old(lruList.nodes)
    {
      freeList.PushFront(meta);
      assert freeList.size <= totalCap;
    }

    method EvictOne() returns (freed: ListNode)
      requires Valid() && abs != []
      modifies this, freeList, lruList, Cells()`prev, Cells()`next, Cells()`home
      ensures Valid() && abs == Init(old(abs)) && Last(old(abs)) in old(at) && at == old(at) - {Last(old(abs))}
      ensures freed == old(at)[Last(old(abs))]
      ensures freeList.nodes == [freed] + old(freeList.nodes) && touches == old(touches)
      ensures Cells() == old(Cells())
    {
      hide List.Valid, List.Linked, ListNode.Detached, Holds, Covers, Distinct, Elems, Remove, Cut, Placed;
      CoversDistinct(abs, at);
      HoldsInit(lruList.nodes, abs, at);
      CoversInit(abs, at);
      ElemsInit(lruList.nodes);
      freed := lruList.PopBack();
      ElemsCons(freed, freeList.nodes);
      freeList.PushFront(freed);
      at := at - {Last(abs)};
      abs := Init(abs);
    }

    lemma FreeFrame()
      requires Valid() && freeList.nodes != []
      ensures forall q :: q in at ==> at[q] != Last(freeList.nodes)
    {
    }

    /** The part of get that takes a free frame. */
    method TakeFree(ghost p: PageId) returns (res: ListNode)
      requires Valid() && freeList.nodes != [] && p !in abs
      modifies this, freeList, lruList, Cells()`prev, Cells()`next, Cells()`home
      ensures Valid() && abs == [p] + old(abs) && touches == old(touches)
      ensures Placed(old(at), at, p, res, null, p)
      ensures freeList.nodes == Init(old(freeList.nodes)) && res == Last(old(freeList.nodes))
      ensures Cells() == old(Cells()) && res in Cells()
    {
      hide List.Valid, List.Linked, ListNode.Detached, Holds, Covers, Distinct, Elems, Remove, Cut, Placed;
      FreeFrame();
      ghost var f := Last(freeList.nodes);
      CoversPush(abs, at, f, p);
      HoldsPush(lruList.nodes, abs, at, f, p);
      ElemsInit(freeList.nodes);
      ElemsCons(f, lruList.nodes);
      res := freeList.PopBack();
      lruList.PushFront(res);
      abs := [p] + abs;
      at := at[p := res];
    }

    /** The page number is not used by the code; it only says which page the frame is handed out for. */
    method Get(ghost p: PageId) returns (res: ListNode, evicted: ListNode?)
      requires Valid() && Ready() && p !in abs
      modifies this, freeList, lruList, Cells()`prev, Cells()`next, Cells()`home
      ensures Valid() && Ready() && abs == LruSpec.Bump(old(abs), p, totalCap) && touches == old(touches)
      ensures Placed(old(at), at, p, res, evicted, if old(abs) == [] then p else Last(old(abs)))
      ensures evicted != null <==> |old(abs)| == totalCap
      ensures TakesFree(old(freeList.nodes), freeList.nodes, res)
      ensures Cells() == old(Cells()) && res in Cells()
    {
      hide List.Valid, List.Linked, Holds, Covers, Distinct, Elems, Remove;
      RemoveAbsent(abs, p);
      evicted := null;
      if freeList.Empty() {
        evicted := EvictOne();
      }
      res := TakeFree(p);
    }

    /** The list is not told of the release, so its counter grows while its length does not. */
    method Touch(meta: ListNode, ghost p: PageId)
      requires Valid() && p in abs && p in at && at[p] == meta
      modifies this, lruList, Cells()`prev, Cells()`next, Cells()`home
      ensures Valid() && abs == LruSpec.Bump(old(abs), p, totalCap) && at == old(at)
      ensures freeList.nodes == old(freeList.nodes) && Cells() == old(Cells())
      ensures |lruList.nodes| == |old(lruList.nodes)| && lruList.size == old(lruList.size) + 1
      ensures touches == old(touches) + 1
    {
      hide List.Valid, List.Linked, ListNode.Detached, Holds, Covers, Distinct, Elems, Remove, Cut, Placed;
      ghost var k := RemovePosition(abs, p);
      CoversMove(abs, at, p);
      HoldsMove(lruList.nodes, abs, at, k);
      ElemsCut(lruList.nodes, k);
      meta.Release(lruList, k);
      ElemsCons(meta, lruList.nodes);
      lruList.PushFront(meta);
      abs := [p] + Remove(abs, p);
      touches := touches + 1;
    }
  }
}
