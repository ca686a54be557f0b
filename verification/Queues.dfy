/** The free, cold and hot lists that 2Q and ARC keep their frames in, and ARC its history nodes. */
module Queues {
  import opened Pages
  import opened Sequences
  import opened Lists
  import opened Placement

  class Queues {
    const freeList: List
    const coldList: List
    const hotList: List

    ghost var cold: seq<PageId>     // most recently used first
    ghost var hot: seq<PageId>
    ghost var at: Placing           // the nodes of the cold and hot pages
    ghost var cells: set<ListNode>  // every node linked in one of the lists

    ghost function Cells(): set<ListNode>
      reads freeList, coldList, hotList
    {
      freeList.Cells() + coldList.Cells() + hotList.Cells()
    }

    ghost predicate Lists()
      reads freeList, coldList, hotList, Cells()`prev, Cells()`next, Cells()`home
    {
      && freeList != coldList && freeList != hotList && coldList != hotList
      && freeList.Valid() && freeList.size == |freeList.nodes|
      && coldList.Valid() && coldList.size == |coldList.nodes|
      && hotList.Valid() && hotList.size == |hotList.nodes|
    }

    ghost predicate Valid()
      reads this, freeList, coldList, hotList
      reads cells`prev, cells`next, cells`home, cells`state, cells`pageId
    {
      && cells == Cells()
      && Lists()
      && Holds(coldList.nodes, cold, at) && Stamped(coldList.nodes, cold, COLD)
      && Holds(hotList.nodes, hot, at) && Stamped(hotList.nodes, hot, HOT)
      && Covers(cold + hot, at)
    }

    constructor ()
      ensures Valid() && cold == [] && hot == [] && at == map[] && freeList.nodes == []
      ensures fresh(freeList) && fresh(coldList) && fresh(hotList) && fresh(cells)
    {
      hide List.Valid, List.Linked, Distinct, Holds, Stamped, Covers;
      var f := new List();
      assert f.Cells() == {f.dummy};
      var c := new List();
      assert c.Cells() == {c.dummy};
      assert f.Valid();
      var h := new List();
      assert h.Cells() == {h.dummy};
      assert f.Valid() && c.Valid();
      freeList, coldList, hotList := f, c, h;
      cold, hot, at := [], [], map[];
      cells := {f.dummy, c.dummy, h.dummy};
      new;
      EmptyPlacing(COLD);
      EmptyPlacing(HOT);
      assert cold + hot == [];
    }

    /** The three lists share no node, and a detached node is on none of them. */
    lemma Separate()
      requires Lists()
      ensures freeList.Cells() !! coldList.Cells() !! hotList.Cells()
      ensures Distinct(freeList.nodes) && freeList.dummy !in Elems(freeList.nodes)
      ensures Distinct(coldList.nodes) && coldList.dummy !in Elems(coldList.nodes)
      ensures Distinct(hotList.nodes) && hotList.dummy !in Elems(hotList.nodes)
    {
    }

    lemma Outside(n: ListNode)
      requires Lists() && n.Detached()
      ensures n !in Cells()
      ensures forall i :: 0 <= i < |coldList.nodes| ==> coldList.nodes[i] != n
      ensures forall i :: 0 <= i < |hotList.nodes| ==> hotList.nodes[i] != n
    {
    }

    /** The nodes in use are those of the cold and hot lists. */
    lemma InUse()
      requires Valid()
      ensures forall q :: q in at ==> at[q] in Elems(coldList.nodes) + Elems(hotList.nodes)
    {
    }

    /** The counters are exact. */
    lemma Sizes()
      requires Valid()
      ensures freeList.Valid() && freeList.size == |freeList.nodes|
      ensures coldList.Valid() && coldList.size == |coldList.nodes| == |cold|
      ensures hotList.Valid() && hotList.size == |hotList.nodes| == |hot|
      ensures freeList.Cells() <= cells && coldList.Cells() <= cells && hotList.Cells() <= cells
    {
    }

    lemma PlacedOnce()
      requires Valid()
      ensures at.Keys == Elems(cold + hot) && Injective(at) && Distinct(cold + hot)
    {
    }

    lemma Member(q: PageId)
      requires Valid()
      ensures q in at <==> q in cold || q in hot
    {
    }

    lemma NotLinked(n: ListNode)
      requires Valid() && n.Detached()
      ensures n !in cells
    {
      hide List.Valid, Covers, Distinct, Elems, Holds, Stamped, ListNode.Detached;
      Outside(n);
    }

    method PushFree(n: ListNode)
      requires Valid() && n.Detached()
      modifies this`cells, freeList, cells`prev, cells`next, n`prev, n`next, n`home
      ensures Valid() && freeList.nodes == [n] + old(freeList.nodes)
      ensures cells == old(cells) + {n}
    {
      hide List.Cells, List.Valid, List.Linked, ListNode.Detached, Distinct, Elems, Holds, Stamped, Covers;
      ElemsCons(n, freeList.nodes);
      freeList.PushFront(n);
      cells := cells + {n};
    }

    /** Retags a node of the free list; the tags of the other lists are not touched. */
    method MarkFree(n: ListNode)
      requires Valid() && n in freeList.nodes
      modifies n`state
      ensures Valid() && n.state == FREE
    {
      hide List.Valid, Distinct, Holds, Covers;
      freeList.NodesDistinct();
      coldList.NotHere(n);
      hotList.NotHere(n);
      n.state := FREE;
    }

    method PopFree() returns (n: ListNode)
      requires Valid() && freeList.nodes != []
      modifies this`cells, freeList, cells`prev, cells`next, cells`home
      ensures Valid() && freeList.nodes == Init(old(freeList.nodes)) && n == Last(old(freeList.nodes))
      ensures n.Detached() && cells == old(cells) - {n} && n in old(cells)
      ensures forall q :: q in at ==> at[q] != n
    {
      hide List.Valid, List.Linked, ListNode.Detached, Distinct, Elems, Holds, Stamped, Covers;
      Separate();
      InUse();
      ElemsInit(freeList.nodes);
      n := freeList.PopBack();
      cells := cells - {n};
    }

    /** What placing a detached node under a new page does to the bookkeeping. */
    lemma PushFacts(n: ListNode, nodes: seq<ListNode>, pages: seq<PageId>, nodes': seq<ListNode>, pages': seq<PageId>)
      requires Valid() && n.Detached() && n.pageId !in pages && n.pageId !in pages'
      requires multiset(pages + pages') == multiset(cold + hot)
      requires Holds(nodes, pages, at) && Holds(nodes', pages', at)
      ensures n !in Cells()
      ensures Holds([n] + nodes, [n.pageId] + pages, at[n.pageId := n])
      ensures Holds(nodes', pages', at[n.pageId := n])
      ensures Covers([n.pageId] + (pages + pages'), at[n.pageId := n])
    {
      hide List.Valid, ListNode.Detached, Distinct, Elems, Holds, Stamped, Covers;
      var p := n.pageId;
      Outside(n);
      InUse();
      assert forall q :: q in at ==> at[q] != n;
      HoldsPush(nodes, pages, at, n, p);
      HoldsOther(nodes', pages', at, n, p);
      CoversPermuted(cold + hot, pages + pages', at);
      CoversPush(pages + pages', at, n, p);
    }

    lemma PushColdFacts(n: ListNode)
      requires Valid() && n.Detached() && n.pageId !in cold && n.pageId !in hot
      ensures n !in Cells()
      ensures Holds([n] + coldList.nodes, [n.pageId] + cold, at[n.pageId := n])
      ensures Holds(hotList.nodes, hot, at[n.pageId := n])
      ensures Covers(([n.pageId] + cold) + hot, at[n.pageId := n])
    {
      hide List.Valid, ListNode.Detached, Distinct, Elems, Holds, Stamped, Covers;
      PushFacts(n, coldList.nodes, cold, hotList.nodes, hot);
      assert [n.pageId] + (cold + hot) == ([n.pageId] + cold) + hot;
    }

    /** The state of a node that is on no list can be set. */
    method Tag(n: ListNode, st: State)
      requires Valid() && n.Detached()
      modifies n`state
      ensures Valid() && n.state == st
    {
      hide List.Valid, ListNode.Detached, Distinct, Elems, Holds, Stamped, Covers;
      NotLinked(n);
      Outside(n);
      n.state := st;
    }

    method PushCold(n: ListNode)
      requires Valid() && n.Detached() && n.pageId !in cold && n.pageId !in hot
      modifies this, coldList, cells`prev, cells`next, n`prev, n`next, n`home, n`state
      ensures Valid() && cold == [n.pageId] + old(cold) && hot == old(hot) && at == old(at)[n.pageId := n]
      ensures freeList.nodes == old(freeList.nodes) && cells == old(cells) + {n}
    {
      hide List.Cells, List.Valid, List.Linked, ListNode.Detached, Distinct, Elems, Holds, Stamped, Covers;
      Tag(n, COLD);
      PushColdFacts(n);
      StampedPush(coldList.nodes, cold, COLD, n);
      coldList.PushFront(n);
      assert Lists() && Cells() == old(Cells()) + {n};
      assert Stamped(coldList.nodes, [n.pageId] + cold, COLD) && Stamped(hotList.nodes, hot, HOT);
      cold, at, cells := [n.pageId] + cold, at[n.pageId := n], cells + {n};
    }

    /** Hot pages come after the cold ones in the cover, so a push to hot is a push in the middle. */
    lemma PushHotFacts(n: ListNode)
      requires Valid() && n.Detached() && n.pageId !in cold && n.pageId !in hot
      ensures n !in Cells()
      ensures Holds([n] + hotList.nodes, [n.pageId] + hot, at[n.pageId := n])
      ensures Holds(coldList.nodes, cold, at[n.pageId := n])
      ensures Covers(cold + ([n.pageId] + hot), at[n.pageId := n])
    {
      hide List.Valid, ListNode.Detached, Distinct, Elems, Holds, Stamped, Covers;
      assert multiset(hot + cold) == multiset(cold + hot);
      PushFacts(n, hotList.nodes, hot, coldList.nodes, cold);
      assert multiset([n.pageId] + (hot + cold)) == multiset(cold + ([n.pageId] + hot));
      CoversPermuted([n.pageId] + (hot + cold), cold + ([n.pageId] + hot), at[n.pageId := n]);
    }

    method PushHot(n: ListNode)
      requires Valid() && n.Detached() && n.pageId !in cold && n.pageId !in hot
      modifies this, hotList, cells`prev, cells`next, n`prev, n`next, n`home, n`state
      ensures Valid() && hot == [n.pageId] + old(hot) && cold == old(cold) && at == old(at)[n.pageId := n]
      ensures freeList.nodes == old(freeList.nodes) && cells == old(cells) + {n}
    {
      hide List.Cells, List.Valid, List.Linked, ListNode.Detached, Distinct, Elems, Holds, Stamped, Covers;
      Tag(n, HOT);
      PushHotFacts(n);
      StampedPush(hotList.nodes, hot, HOT, n);
      hotList.PushFront(n);
      assert Lists() && Cells() == old(Cells()) + {n};
      assert Stamped(hotList.nodes, [n.pageId] + hot, HOT) && Stamped(coldList.nodes, cold, COLD);
      hot, at, cells := [n.pageId] + hot, at[n.pageId := n], cells + {n};
    }

    /** What taking the k-th node of a list out does to the bookkeeping. */
    lemma CutFacts(k: nat, nodes: seq<ListNode>, pages: seq<PageId>, st: State, nodes': seq<ListNode>,
                   pages': seq<PageId>)
      requires Valid() && k < |pages|
      requires multiset(pages + pages') == multiset(cold + hot)
      requires Holds(nodes, pages, at) && Stamped(nodes, pages, st) && Holds(nodes', pages', at)
      ensures k < |nodes| && pages[k] in at && at[pages[k]] == nodes[k]
      ensures nodes[k].pageId == pages[k] && nodes[k].state == st
      ensures Holds(Cut(nodes, k), Cut(pages, k), at - {pages[k]}) && Stamped(Cut(nodes, k), Cut(pages, k), st)
      ensures Holds(nodes', pages', at - {pages[k]})
      ensures Covers(Cut(pages, k) + pages', at - {pages[k]})
    {
      hide List.Valid, Distinct, Elems, Holds, Stamped, Covers;
      CoversPermuted(cold + hot, pages + pages', at);
      HoldsMove(nodes, pages, at, k);
      StampedCut(nodes, pages, st, k);
      CoversDistinct(pages + pages', at);
      DistinctParts(pages, pages', k);
      CoversCut(pages, pages', at, k);
      HoldsCut(nodes, pages, at, k);
      HoldsOther(nodes', pages', at, nodes[k], pages[k]);
    }

    /** Taking the last node out, in terms of what remains. */
    lemma PopFacts(nodes: seq<ListNode>, pages: seq<PageId>, st: State, nodes': seq<ListNode>, pages': seq<PageId>)
      requires Valid() && pages != []
      requires multiset(pages + pages') == multiset(cold + hot)
      requires Holds(nodes, pages, at) && Stamped(nodes, pages, st) && Holds(nodes', pages', at)
      ensures nodes != [] && Last(pages) in at && at[Last(pages)] == Last(nodes) && Last(nodes).pageId == Last(pages)
      ensures Holds(Init(nodes), Init(pages), at - {Last(pages)}) && Stamped(Init(nodes), Init(pages), st)
      ensures Holds(nodes', pages', at - {Last(pages)})
      ensures Covers(Init(pages) + pages', at - {Last(pages)})
    {
      hide List.Valid, Distinct, Elems, Stamped, Covers, Cut;
      CutFacts(|pages| - 1, nodes, pages, st, nodes', pages');
      CutLast(pages);
      CutLast(nodes);
    }

    lemma PopHotFacts()
      requires Valid() && hot != []
      ensures Covers(cold + Init(hot), at - {Last(hot)})
      ensures hotList.nodes != [] && Last(hot) in at && at[Last(hot)] == Last(hotList.nodes)
      ensures Last(hotList.nodes).pageId == Last(hot)
      ensures Holds(Init(hotList.nodes), Init(hot), at - {Last(hot)}) && Stamped(Init(hotList.nodes), Init(hot), HOT)
      ensures Holds(coldList.nodes, cold, at - {Last(hot)})
    {
      hide List.Valid, Distinct, Elems, Holds, Stamped, Covers;
      assert multiset(hot + cold) == multiset(cold + hot);
      PopFacts(hotList.nodes, hot, HOT, coldList.nodes, cold);
      assert multiset(Init(hot) + cold) == multiset(cold + Init(hot));
      CoversPermuted(Init(hot) + cold, cold + Init(hot), at - {Last(hot)});
    }

    method PopCold() returns (n: ListNode)
      requires Valid() && cold != []
      modifies this, coldList, cells`prev, cells`next, cells`home
      ensures Valid() && cold == Init(old(cold)) && hot == old(hot)
      ensures n.pageId == Last(old(cold)) && n.pageId in old(at) && old(at)[n.pageId] == n
      ensures at == old(at) - {n.pageId}
      ensures freeList.nodes == old(freeList.nodes)
      ensures n.Detached() && cells == old(cells) - {n} && n in old(cells)
    {
      hide List.Valid, List.Linked, ListNode.Detached, Distinct, Elems, Holds, Stamped, Covers;
      Separate();
      PopFacts(coldList.nodes, cold, COLD, hotList.nodes, hot);
      ElemsInit(coldList.nodes);
      n := coldList.PopBack();
      cold, at, cells := Init(cold), at - {Last(cold)}, cells - {n};
    }

    method PopHot() returns (n: ListNode)
      requires Valid() && hot != []
      modifies this, hotList, cells`prev, cells`next, cells`home
      ensures Valid() && hot == Init(old(hot)) && cold == old(cold)
      ensures n.pageId == Last(old(hot)) && n.pageId in old(at) && old(at)[n.pageId] == n
      ensures at == old(at) - {n.pageId}
      ensures freeList.nodes == old(freeList.nodes)
      ensures n.Detached() && cells == old(cells) - {n} && n in old(cells)
    {
      hide List.Valid, List.Linked, ListNode.Detached, Distinct, Elems, Holds, Stamped, Covers;
      Separate();
      PopHotFacts();
      ElemsInit(hotList.nodes);
      n := hotList.PopBack();
      hot, at, cells := Init(hot), at - {Last(hot)}, cells - {n};
    }

    /** A page is in one list only, and the tag of its node says in which one. */
    lemma TagOf(p: PageId)
      requires Valid() && p in at
      ensures p in cold <==> p !in hot
      ensures at[p].pageId == p && at[p] in cells
      ensures p in cold ==> at[p].state == COLD
      ensures p in hot ==> at[p].state == HOT
    {
    }

    lemma HotCutFacts(k: nat)
      requires Valid() && k < |hot|
      ensures k < |hotList.nodes| && hot[k] in at && at[hot[k]] == hotList.nodes[k]
      ensures Covers(cold + Cut(hot, k), at - {hot[k]})
      ensures Holds(Cut(hotList.nodes, k), Cut(hot, k), at - {hot[k]})
      ensures Stamped(Cut(hotList.nodes, k), Cut(hot, k), HOT)
      ensures Holds(coldList.nodes, cold, at - {hot[k]})
    {
      hide List.Valid, Distinct, Elems, Holds, Stamped, Covers, Cut;
      assert multiset(hot + cold) == multiset(cold + hot);
      CutFacts(k, hotList.nodes, hot, HOT, coldList.nodes, cold);
      assert multiset(Cut(hot, k) + cold) == multiset(cold + Cut(hot, k));
      CoversPermuted(Cut(hot, k) + cold, cold + Cut(hot, k), at - {hot[k]});
    }

    method ReleaseCold(n: ListNode, ghost p: PageId)
      requires Valid() && p in cold && p in at && at[p] == n
      modifies this, coldList, cells`prev, cells`next, n`home
      ensures Valid() && cold == Remove(old(cold), p) && hot == old(hot) && at == old(at) - {p}
      ensures freeList.nodes == old(freeList.nodes)
      ensures n.Detached() && cells == old(cells) - {n} && n in old(cells)
    {
      hide List.Valid, List.Linked, ListNode.Detached, Distinct, Elems, Holds, Stamped, Covers, Remove;
      Separate();
      ghost var k := RemovePosition(cold, p);
      CutFacts(k, coldList.nodes, cold, COLD, hotList.nodes, hot);
      ElemsCut(coldList.nodes, k);
      n.Release(coldList, k);
      coldList.ReleaseCallback();
      assert Lists() && Cells() == old(Cells()) - {n};
      assert Stamped(coldList.nodes, Remove(cold, p), COLD) && Stamped(hotList.nodes, hot, HOT);
      cold, at, cells := Remove(cold, p), at - {p}, cells - {n};
    }

    method ReleaseHot(n: ListNode, ghost p: PageId)
      requires Valid() && p in hot && p in at && at[p] == n
      modifies this, hotList, cells`prev, cells`next, n`home
      ensures Valid() && hot == Remove(old(hot), p) && cold == old(cold) && at == old(at) - {p}
      ensures freeList.nodes == old(freeList.nodes)
      ensures n.Detached() && cells == old(cells) - {n} && n in old(cells)
    {
      hide List.Valid, List.Linked, ListNode.Detached, Distinct, Elems, Holds, Stamped, Covers, Remove;
      Separate();
      ghost var k := RemovePosition(hot, p);
      HotCutFacts(k);
      ElemsCut(hotList.nodes, k);
      n.Release(hotList, k);
      hotList.ReleaseCallback();
      assert Lists() && Cells() == old(Cells()) - {n};
      assert Stamped(hotList.nodes, Remove(hot, p), HOT) && Stamped(coldList.nodes, cold, COLD);
      hot, at, cells := Remove(hot, p), at - {p}, cells - {n};
    }
  }
}
