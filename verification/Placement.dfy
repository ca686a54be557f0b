/** Which frame holds which page: the part of a policy's state that the buffer pool depends on. */
module Placement {
  import opened Pages
  import opened Lists
  import opened Sequences

  type Placing = map<PageId, ListNode>

  ghost predicate Injective(at: Placing) {
    forall p, q :: p in at && q in at && p != q ==> at[p] != at[q]
  }

  /** nodes are the frames of pages, in order. */
  ghost predicate Holds(nodes: seq<ListNode>, pages: seq<PageId>, at: Placing) {
    |nodes| == |pages| && forall i :: 0 <= i < |pages| ==> pages[i] in at && at[pages[i]] == nodes[i]
  }

  /**
   * What every get does: p is placed in frame res, which was free, or else held the one page
   * victim that was evicted.
   */
  ghost predicate Placed(at: Placing, at': Placing, p: PageId, res: ListNode, evicted: ListNode?, victim: PageId) {
    if evicted == null
    then at' == at[p := res] && forall q :: q in at ==> at[q] != res
    else evicted == res && victim in at && at[victim] == res && at' == (at - {victim})[p := res]
  }

  /** A page that is placed before and after has kept its frame. */
  ghost predicate Steady(at: Placing, at': Placing) {
    forall q :: q in at && q in at' ==> at'[q] == at[q]
  }

  lemma PlacedIsSteady(at: Placing, at': Placing, p: PageId, res: ListNode, evicted: ListNode?, victim: PageId)
    requires p !in at && Placed(at, at', p, res, evicted, victim)
    ensures Steady(at, at')
  {
  }

  /** The frame comes from the back of the free list, and eviction leaves no free frame behind. */
  ghost predicate TakesFree(free: seq<ListNode>, free': seq<ListNode>, res: ListNode) {
    if free == [] then free' == [] else free' == Init(free) && res == Last(free)
  }

  lemma HoldsInit(nodes: seq<ListNode>, pages: seq<PageId>, at: Placing)
    requires Holds(nodes, pages, at) && Distinct(pages) && pages != []
    ensures nodes != [] && at[Last(pages)] == Last(nodes)
    ensures Holds(Init(nodes), Init(pages), at)
    ensures Holds(Init(nodes), Init(pages), at - {Last(pages)})
  {
  }

  lemma HoldsPush(nodes: seq<ListNode>, pages: seq<PageId>, at: Placing, res: ListNode, p: PageId)
    requires Holds(nodes, pages, at) && p !in pages
    ensures |nodes| == |pages| && Holds([res] + nodes, [p] + pages, at[p := res])
  {
  }

  /** Placing or dropping a page leaves the lists without that page alone. */
  lemma HoldsOther(nodes: seq<ListNode>, pages: seq<PageId>, at: Placing, res: ListNode, p: PageId)
    requires Holds(nodes, pages, at) && p !in pages
    ensures Holds(nodes, pages, at[p := res])
    ensures Holds(nodes, pages, at - {p})
  {
  }

  lemma HoldsMove(nodes: seq<ListNode>, pages: seq<PageId>, at: Placing, k: nat)
    requires Holds(nodes, pages, at) && k < |pages|
    ensures k < |nodes| && pages[k] in at && nodes[k] == at[pages[k]]
    ensures Holds(Cut(nodes, k), Cut(pages, k), at)
    ensures Holds([nodes[k]] + Cut(nodes, k), [pages[k]] + Cut(pages, k), at)
  {
  }

  /** pages, in recency order, are exactly the placed ones. */
  ghost predicate Covers(pages: seq<PageId>, at: Placing) {
    Distinct(pages) && at.Keys == Elems(pages) && Injective(at)
  }

  lemma CoversDistinct(pages: seq<PageId>, at: Placing)
    requires Covers(pages, at)
    ensures Distinct(pages)
  {
  }

  lemma CoversInit(pages: seq<PageId>, at: Placing)
    requires Covers(pages, at) && pages != []
    ensures Covers(Init(pages), at - {Last(pages)}) && Last(pages) in at
  {
  }

  lemma CoversPush(pages: seq<PageId>, at: Placing, res: ListNode, p: PageId)
    requires Covers(pages, at) && p !in pages && forall q :: q in at ==> at[q] != res
    ensures Covers([p] + pages, at[p := res]) && Placed(at, at[p := res], p, res, null, p)
  {
  }

  lemma CoversMove(pages: seq<PageId>, at: Placing, p: PageId)
    requires Covers(pages, at) && p in pages
    ensures Covers([p] + Remove(pages, p), at) && p in at
  {
    RemoveElems(pages, p);
    RemoveDistinct(pages, p);
    ElemsCons(p, Remove(pages, p));
    assert p in Elems(pages);
    assert Elems([p] + Remove(pages, p)) == Elems(pages);
    hide Remove, Elems;
  }

  /** The frames carry their pages' numbers and the tag of their list. */
  ghost predicate Stamped(nodes: seq<ListNode>, pages: seq<PageId>, st: State)
    reads nodes`pageId, nodes`state
  {
    |nodes| == |pages| && forall i :: 0 <= i < |nodes| ==> nodes[i].pageId == pages[i] && nodes[i].state == st
  }

  lemma StampedPush(nodes: seq<ListNode>, pages: seq<PageId>, st: State, n: ListNode)
    requires Stamped(nodes, pages, st) && n.state == st
    ensures Stamped([n] + nodes, [n.pageId] + pages, st)
  {
  }

  lemma StampedCut(nodes: seq<ListNode>, pages: seq<PageId>, st: State, k: nat)
    requires Stamped(nodes, pages, st) && k < |pages|
    ensures k < |nodes| && nodes[k].pageId == pages[k] && nodes[k].state == st
    ensures Stamped(Cut(nodes, k), Cut(pages, k), st)
  {
  }

  /** The order of the pages does not matter. */
  lemma CoversPermuted(pages: seq<PageId>, pages': seq<PageId>, at: Placing)
    requires Covers(pages, at) && multiset(pages) == multiset(pages')
    ensures Covers(pages', at)
  {
    DistinctAsMultiset(pages);
    DistinctAsMultiset(pages');
    forall p
      ensures p in pages <==> p in pages'
    {
      assert p in multiset(pages) <==> p in multiset(pages');
    }
    hide Distinct;
    assert Elems(pages) == Elems(pages');
  }

  lemma CoversCut(pages: seq<PageId>, pages': seq<PageId>, at: Placing, k: nat)
    requires Covers(pages + pages', at) && k < |pages|
    ensures Covers(Cut(pages, k) + pages', at - {pages[k]})
  {
    hide Elems, Distinct;
    assert Cut(pages + pages', k) == Cut(pages, k) + pages' && (pages + pages')[k] == pages[k];
    CoversDistinct(pages + pages', at);
    ElemsCut(pages + pages', k);
    assert (at - {pages[k]}).Keys == at.Keys - {pages[k]};
  }

  lemma HoldsCut(nodes: seq<ListNode>, pages: seq<PageId>, at: Placing, k: nat)
    requires Holds(nodes, pages, at) && Distinct(pages) && k < |pages|
    ensures |nodes| == |pages| && Holds(Cut(nodes, k), Cut(pages, k), at - {pages[k]})
  {
  }

  lemma DistinctParts<T>(a: seq<T>, b: seq<T>, k: nat)
    requires Distinct(a + b) && k < |a|
    ensures Distinct(a) && a[k] !in b
  {
    assert forall i :: 0 <= i < |b| ==> b[i] == (a + b)[|a| + i];
    assert forall i :: 0 <= i < |a| ==> a[i] == (a + b)[i];
  }

  lemma EmptyPlacing(st: State)
    ensures Covers([], map[]) && Holds([], [], map[]) && Stamped([], [], st)
  {
  }
}
