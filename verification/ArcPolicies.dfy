/** include/arc_policy.hh */
module ArcPolicies {
  import opened Pages
  import opened Sequences
  import opened Lists
  import opened Placement
  import opened Queues
  import ArcSpec

  class ArcPolicy {
    const capacity: nat
    const frames: Queues          // free_list_, cold_list_, hot_list_
    const hist: Queues            // free_hist_list_, cold_hist_list_, hot_hist_list_
    var thres: nat
    var histMap: Placing

    ghost function Abs(): ArcSpec.Arc
      reads this, frames, hist
    {
      ArcSpec.Arc(capacity, frames.cold, frames.hot, hist.cold, hist.hot, thres)
    }

    ghost function Objects(): set<object> {
      {frames, frames.freeList, frames.coldList, frames.hotList, hist, hist.freeList, hist.coldList, hist.hotList}
    }

    ghost function Cells(): set<ListNode>
      reads frames, hist
    {
      frames.cells + hist.cells
    }

    /** All history nodes, free or in use. */
    ghost function Records(): nat
      reads hist, hist.freeList
    {
      |hist.freeList.nodes| + |hist.cold| + |hist.hot|
    }

    /** Frames and history nodes live apart, and the map leads to the history nodes. */
    ghost predicate Rep()
      reads this, Objects()
      reads Cells()`prev, Cells()`next, Cells()`home, Cells()`state, Cells()`pageId
    {
      && frames.Valid() && hist.Valid() && frames != hist
      && {frames.freeList, frames.coldList, frames.hotList} !! {hist.freeList, hist.coldList, hist.hotList}
      && frames.cells !! hist.cells
      && histMap == hist.at
    }

    ghost predicate Valid()
      reads this, Objects()
      reads Cells()`prev, Cells()`next, Cells()`home, Cells()`state, Cells()`pageId
    {
      && Rep()
      && ArcSpec.Inv(Abs())
      && |frames.freeList.nodes| + |ArcSpec.Resident(Abs())| <= capacity
      && Records() == capacity
    }

    ghost predicate Ready()
      reads this, Objects()
    {
      |frames.freeList.nodes| + |ArcSpec.Resident(Abs())| == capacity
    }

    constructor (c: nat)
      requires c > 0
      ensures Valid() && Abs() == ArcSpec.Arc(c, [], [], [], [], (c + 3) / 4) && frames.at == map[]
      ensures c <= 4 * thres < c + 4
      ensures frames.freeList.nodes == [] && fresh(Objects()) && fresh(Cells())
    {
      hide Queues.Valid, Distinct;
      capacity := c;
      var f := new Queues();
      var h := new Queues();
      frames, hist := f, h;
      thres := (c + 3) / 4;
      histMap := map[];
      new;
      ArcSpec.StartKeepsInv(c, thres);
      FillHistory(c);
    }

    /** The loop of the constructor: one history node per frame. */
    method FillHistory(c: nat)
      requires Rep() && hist.cold == hist.hot == [] && hist.freeList.nodes == []
      modifies hist, hist.freeList, hist.cells`prev, hist.cells`next, hist.cells`home
      ensures Rep() && hist.cold == hist.hot == [] && hist.at == old(hist.at)
      ensures |hist.freeList.nodes| == c && fresh(hist.cells - old(hist.cells))
    {
      hide Queues.Valid, Distinct;
      var i := 0;
      while i < c
        invariant 0 <= i <= c && |hist.freeList.nodes| == i
        invariant Rep() && hist.cold == hist.hot == [] && hist.at == old(hist.at)
        invariant fresh(hist.cells - old(hist.cells))
      {
        var node := new ListNode();
        hist.PushFree(node);
        i := i + 1;
      }
    }

    method RegisterMetadata(meta: ListNode)
      requires Valid() && !Ready() && meta.Detached()
      modifies frames, frames.freeList, Cells()`prev, Cells()`next, meta`prev, meta`next, meta`home
      ensures Valid() && Abs() == old(Abs()) && frames.at == old(frames.at)
      ensures frames.freeList.nodes == [meta] + old(frames.freeList.nodes)
      ensures frames.cells == old(frames.cells) + {meta} && hist.cells == old(hist.cells)
    {
      hide Queues.Valid, ListNode.Detached, ArcSpec.Inv;
      hist.NotLinked(meta);
      frames.PushFree(meta);
      frames.Sizes();
      assert capacity >= frames.freeList.size;
    }

    /** hist_map_.find(page), then the tag of its node. */
    predicate IsHotRecord(page: PageId)
      requires Rep()
      reads this, Objects()
      reads Cells()`prev, Cells()`next, Cells()`home, Cells()`state, Cells()`pageId
      ensures IsHotRecord(page) <==> page in hist.hot
    {
      hide Queues.Valid;
      hist.Member(page);
      if page !in histMap then false
      else
        hist.TagOf(page);
        histMap[page].state == HOT
    }

    /** The lambda check_condition of replace. */
    predicate CheckCondition(page: PageId, thres: nat)
      requires Rep()
      reads this, Objects()
      reads Cells()`prev, Cells()`next, Cells()`home, Cells()`state, Cells()`pageId
      ensures frames.cold != [] ==> (CheckCondition(page, thres) <==> ArcSpec.TakesCold(Abs(), page, thres))
    {
      hide Queues.Valid;
      frames.Sizes();
      if frames.coldList.size > thres then true
      else if frames.coldList.size != thres then false
      else IsHotRecord(page)
    }

    /** emplace does nothing when the key is present. */
    method Emplace(page: PageId, node: ListNode)
      modifies this`histMap
      ensures histMap == if page in old(histMap) then old(histMap) else old(histMap)[page := node]
    {
      if page !in histMap {
        histMap := histMap[page := node];
      }
    }

    method Replace(page: PageId, thres': nat) returns (freed: ListNode, evicted: ListNode?)
      requires Rep() && Distinct(ArcSpec.Directory(Abs())) && hist.freeList.nodes != []
      requires ArcSpec.TakesCold(Abs(), page, thres') || frames.hot != []
      modifies this`histMap, Objects(), Cells()`prev, Cells()`next, Cells()`home, Cells()`state, Cells()`pageId
      ensures Rep() && Abs() == ArcSpec.Replace(old(Abs()), page, thres')
      ensures var cold, hot := old(frames.cold), old(frames.hot);
              if cold != [] && (|cold| > thres' || (|cold| == thres' && page in old(hist.hot)))
              then && frames.cold == Init(cold) && hist.cold == [Last(cold)] + old(hist.cold)
                   && frames.hot == hot && hist.hot == old(hist.hot) && freed.pageId == Last(cold)
              else && hot != [] && frames.hot == Init(hot) && hist.hot == [Last(hot)] + old(hist.hot)
                   && frames.cold == cold && hist.cold == old(hist.cold) && freed.pageId == Last(hot)
      ensures freed.Detached() && freed.pageId == ArcSpec.Victim(old(Abs()), page, thres') && evicted == freed
      ensures freed.pageId in old(frames.at) && old(frames.at)[freed.pageId] == freed
      ensures frames.at == old(frames.at) - {freed.pageId}
      ensures |hist.freeList.nodes| == |old(hist.freeList.nodes)| - 1
      ensures frames.freeList.nodes == old(frames.freeList.nodes)
      ensures frames.cells == old(frames.cells) - {freed} && freed in old(frames.cells) && hist.cells == old(hist.cells)
    {
      hide Queues.Valid, ListNode.Detached, Distinct;
      frames.Sizes();
      VictimUnrecorded(page, thres');
      if !frames.coldList.Empty() {
        if CheckCondition(page, thres') {
          freed, evicted := DemoteCold();
          return;
        }
      }
      freed, evicted := DemoteHot();
    }

    /** Evicts the oldest cold page into the cold history. */
    method DemoteCold() returns (freed: ListNode, evicted: ListNode?)
      requires Rep() && hist.freeList.nodes != []
      requires frames.cold != [] && Last(frames.cold) !in hist.cold && Last(frames.cold) !in hist.hot
      modifies this`histMap, Objects(), Cells()`prev, Cells()`next, Cells()`home, Cells()`state, Cells()`pageId
      ensures Rep() && thres == old(thres)
      ensures frames.cold == Init(old(frames.cold)) && frames.hot == old(frames.hot)
      ensures hist.cold == [Last(old(frames.cold))] + old(hist.cold) && hist.hot == old(hist.hot)
      ensures freed.Detached() && freed.pageId == Last(old(frames.cold)) && evicted == freed
      ensures freed.pageId in old(frames.at) && old(frames.at)[freed.pageId] == freed
      ensures frames.at == old(frames.at) - {freed.pageId}
      ensures |hist.freeList.nodes| == |old(hist.freeList.nodes)| - 1
      ensures frames.freeList.nodes == old(frames.freeList.nodes)
      ensures frames.cells == old(frames.cells) - {freed} && freed in old(frames.cells) && hist.cells == old(hist.cells)
    {
      hide Queues.Valid, ListNode.Detached;
      freed := frames.PopCold();
      evicted := freed;
      RecordCold(freed.pageId);
    }

    /** Evicts the oldest hot page into the hot history. */
    method DemoteHot() returns (freed: ListNode, evicted: ListNode?)
      requires Rep() && hist.freeList.nodes != []
      requires frames.hot != [] && Last(frames.hot) !in hist.cold && Last(frames.hot) !in hist.hot
      modifies this`histMap, Objects(), Cells()`prev, Cells()`next, Cells()`home, Cells()`state, Cells()`pageId
      ensures Rep() && thres == old(thres)
      ensures frames.hot == Init(old(frames.hot)) && frames.cold == old(frames.cold)
      ensures hist.hot == [Last(old(frames.hot))] + old(hist.hot) && hist.cold == old(hist.cold)
      ensures freed.Detached() && freed.pageId == Last(old(frames.hot)) && evicted == freed
      ensures freed.pageId in old(frames.at) && old(frames.at)[freed.pageId] == freed
      ensures frames.at == old(frames.at) - {freed.pageId}
      ensures |hist.freeList.nodes| == |old(hist.freeList.nodes)| - 1
      ensures frames.freeList.nodes == old(frames.freeList.nodes)
      ensures frames.cells == old(frames.cells) - {freed} && freed in old(frames.cells) && hist.cells == old(hist.cells)
    {
      hide Queues.Valid, ListNode.Detached;
      freed := frames.PopHot();
      evicted := freed;
      RecordHot(freed.pageId);
    }

    /** The page that replace demotes has no record yet, so emplace inserts. */
    lemma VictimUnrecorded(page: PageId, thres': nat)
      requires Distinct(ArcSpec.Directory(Abs()))
      requires ArcSpec.TakesCold(Abs(), page, thres') || frames.hot != []
      ensures var v := ArcSpec.Victim(Abs(), page, thres'); v !in hist.cold && v !in hist.hot
    {
      hide Distinct;
      ArcSpec.DirectoryPages(Abs());
      var v := ArcSpec.Victim(Abs(), page, thres');
      assert ArcSpec.PageBag(Abs())[v] <= 1;
    }

    /** Takes a free history node for page and links it in the cold history. */
    method RecordCold(page: PageId)
      requires Rep() && hist.freeList.nodes != [] && page !in hist.cold && page !in hist.hot
      modifies this`histMap, hist, hist.freeList, hist.coldList
      modifies hist.cells`prev, hist.cells`next, hist.cells`home, hist.cells`state, hist.cells`pageId
      ensures Rep() && hist.cold == [page] + old(hist.cold) && hist.hot == old(hist.hot)
      ensures |hist.freeList.nodes| == |old(hist.freeList.nodes)| - 1
      ensures hist.cells == old(hist.cells)
    {
      hide Queues.Valid, ListNode.Detached;
      hist.Member(page);
      var histnode := hist.PopFree();
      histnode.pageId := page;
      Emplace(page, histnode);
      hist.PushCold(histnode);
    }

    method RecordHot(page: PageId)
      requires Rep() && hist.freeList.nodes != [] && page !in hist.cold && page !in hist.hot
      modifies this`histMap, hist, hist.freeList, hist.hotList
      modifies hist.cells`prev, hist.cells`next, hist.cells`home, hist.cells`state, hist.cells`pageId
      ensures Rep() && hist.hot == [page] + old(hist.hot) && hist.cold == old(hist.cold)
      ensures |hist.freeList.nodes| == |old(hist.freeList.nodes)| - 1
      ensures hist.cells == old(hist.cells)
    {
      hide Queues.Valid, ListNode.Detached;
      hist.Member(page);
      var histnode := hist.PopFree();
      histnode.pageId := page;
      Emplace(page, histnode);
      hist.PushHot(histnode);
    }

    /** A hit in the cold history favours the cold list. */
    method RaiseThreshold()
      requires Rep() && hist.cold != [] && thres <= capacity
      modifies this`thres
      ensures Rep()
      ensures thres == ArcSpec.Min(old(thres) + ArcSpec.Delta(|hist.hot|, |hist.cold|), capacity)
      ensures ArcSpec.Raises(old(thres), thres, capacity, |hist.cold|, |hist.hot|)
    {
      hide Queues.Valid, ArcSpec.Delta;
      hist.Sizes();
      ArcSpec.DeltaMoves(thres, capacity, |hist.cold|, |hist.hot|);
      var delta := ArcSpec.Delta(hist.hotList.size, hist.coldList.size);
      thres := if thres + delta <= capacity then thres + delta else capacity;
    }

    /** A hit in the hot history favours the hot list. */
    method LowerThreshold()
      requires Rep() && hist.hot != []
      modifies this`thres
      ensures Rep()
      ensures var delta := ArcSpec.Delta(|hist.cold|, |hist.hot|);
              thres == if old(thres) >= delta then old(thres) - delta else 0
      ensures ArcSpec.Lowers(old(thres), thres, |hist.hot|, |hist.cold|)
    {
      hide Queues.Valid, ArcSpec.Delta;
      hist.Sizes();
      ArcSpec.DeltaMoves(thres, capacity, |hist.hot|, |hist.cold|);
      var delta := ArcSpec.Delta(hist.coldList.size, hist.hotList.size);
      thres := if thres >= delta then thres - delta else 0;
    }

    /** The record of page is in B1: forget it. */
    method TakeColdRecord(histnode: ListNode, page: PageId)
      requires Rep() && thres <= capacity && page in histMap && histMap[page] == histnode && page in hist.cold
      modifies this, Objects(), Cells()`prev, Cells()`next, Cells()`home
      ensures Rep() && frames.at == old(frames.at) && frames.freeList.nodes == old(frames.freeList.nodes)
      ensures thres == ArcSpec.Min(old(thres) + ArcSpec.Delta(|old(hist.hot)|, |old(hist.cold)|), capacity)
      ensures ArcSpec.Raises(old(thres), thres, capacity, |old(hist.cold)|, |old(hist.hot)|)
      ensures hist.cold == Remove(old(hist.cold), page) && hist.hot == old(hist.hot)
      ensures frames.cold == old(frames.cold) && frames.hot == old(frames.hot)
      ensures |hist.freeList.nodes| == |old(hist.freeList.nodes)| + 1
      ensures frames.cells == old(frames.cells) && hist.cells == old(hist.cells)
    {
      hide Queues.Valid, ListNode.Detached, Remove, ArcSpec.Delta, ArcSpec.Min, ArcSpec.Raises, ArcSpec.Lowers;
      hist.TagOf(page);
      RaiseThreshold();
      histMap := histMap - {page};
      hist.ReleaseCold(histnode, page);
      hist.PushFree(histnode);
    }

    /** The record of page is in B2: forget it. */
    method TakeHotRecord(histnode: ListNode, page: PageId)
      requires Rep() && page in histMap && histMap[page] == histnode && page in hist.hot
      modifies this, Objects(), Cells()`prev, Cells()`next, Cells()`home, histnode`state
      ensures Rep() && frames.at == old(frames.at) && frames.freeList.nodes == old(frames.freeList.nodes)
      ensures var delta := ArcSpec.Delta(|old(hist.cold)|, |old(hist.hot)|);
              thres == if old(thres) >= delta then old(thres) - delta else 0
      ensures ArcSpec.Lowers(old(thres), thres, |old(hist.hot)|, |old(hist.cold)|)
      ensures hist.hot == Remove(old(hist.hot), page) && hist.cold == old(hist.cold)
      ensures frames.cold == old(frames.cold) && frames.hot == old(frames.hot)
      ensures |hist.freeList.nodes| == |old(hist.freeList.nodes)| + 1
      ensures frames.cells == old(frames.cells) && hist.cells == old(hist.cells)
    {
      hide Queues.Valid, ListNode.Detached, Remove, ArcSpec.Delta, ArcSpec.Min, ArcSpec.Raises, ArcSpec.Lowers;
      hist.TagOf(page);
      LowerThreshold();
      histMap := histMap - {page};
      hist.ReleaseHot(histnode, page);
      histnode.state := FREE;
      hist.PushFree(histnode);
    }

    /** The page has a record: forget it and adapt the threshold. */
    method TakeRecord(page: PageId)
      requires Valid() && page in histMap
      modifies this, Objects(), Cells()`prev, Cells()`next, Cells()`home, Cells()`state
      ensures Rep() && Abs() == ArcSpec.Prepared(old(Abs()), page)
      ensures if page in old(hist.cold)
              then && ArcSpec.Raises(old(thres), thres, capacity, |old(hist.cold)|, |old(hist.hot)|)
                   && hist.cold == Remove(old(hist.cold), page) && hist.hot == old(hist.hot)
              else && ArcSpec.Lowers(old(thres), thres, |old(hist.hot)|, |old(hist.cold)|)
                   && hist.hot == Remove(old(hist.hot), page) && hist.cold == old(hist.cold)
      ensures frames.at == old(frames.at) && frames.freeList.nodes == old(frames.freeList.nodes)
      ensures |hist.freeList.nodes| == |old(hist.freeList.nodes)| + 1 && Records() == old(Records())
      ensures frames.cells == old(frames.cells) && hist.cells == old(hist.cells)
    {
      hide Queues.Valid, Distinct, Remove, ArcSpec.Raises, ArcSpec.Lowers, ArcSpec.Delta;
      hist.Member(page);
      hist.TagOf(page);
      RemoveSize(hist.cold, page);
      RemoveSize(hist.hot, page);
      var histnode := histMap[page];
      if histnode.state == COLD {
        TakeColdRecord(histnode, page);
      } else {
        TakeHotRecord(histnode, page);
      }
    }

    /** Forgets the oldest cold record. */
    method DropColdRecord()
      requires Rep() && hist.cold != []
      modifies this, Objects(), Cells()`prev, Cells()`next, Cells()`home
      ensures Rep() && frames.at == old(frames.at) && frames.freeList.nodes == old(frames.freeList.nodes)
      ensures Abs() == old(Abs()).(coldHist := Init(old(hist.cold)))
      ensures |hist.freeList.nodes| == |old(hist.freeList.nodes)| + 1
      ensures frames.cells == old(frames.cells) && hist.cells == old(hist.cells)
    {
      hide Queues.Valid, ListNode.Detached;
      var histnode := hist.PopCold();
      histMap := histMap - {histnode.pageId};
      hist.PushFree(histnode);
    }

    /** Forgets the oldest hot record. */
    method DropHotRecord()
      requires Rep() && hist.hot != []
      modifies this, Objects(), Cells()`prev, Cells()`next, Cells()`home
      ensures Rep() && frames.at == old(frames.at) && frames.freeList.nodes == old(frames.freeList.nodes)
      ensures Abs() == old(Abs()).(hotHist := Init(old(hist.hot)))
      ensures |hist.freeList.nodes| == |old(hist.freeList.nodes)| + 1
      ensures frames.cells == old(frames.cells) && hist.cells == old(hist.cells)
    {
      hide Queues.Valid, ListNode.Detached;
      var histnode := hist.PopHot();
      histMap := histMap - {histnode.pageId};
      hist.PushFree(histnode);
    }

    /** Puts page in a frame in hand, at the front of cold. */
    method PlaceCold(res: ListNode, page: PageId)
      requires Rep() && res.Detached() && page !in frames.cold && page !in frames.hot
      modifies frames, frames.coldList, frames.cells`prev, frames.cells`next
      modifies res`prev, res`next, res`home, res`state, res`pageId
      ensures Rep() && frames.cold == [page] + old(frames.cold) && frames.hot == old(frames.hot)
      ensures frames.at == old(frames.at)[page := res] && frames.freeList.nodes == old(frames.freeList.nodes)
      ensures frames.cells == old(frames.cells) + {res}
    {
      hide Queues.Valid, ListNode.Detached;
      frames.NotLinked(res);
      hist.NotLinked(res);
      res.pageId := page;
      frames.PushCold(res);
    }

    /** The same for hot. */
    method PlaceHot(res: ListNode, page: PageId)
      requires Rep() && res.Detached() && page !in frames.cold && page !in frames.hot
      modifies frames, frames.hotList, frames.cells`prev, frames.cells`next
      modifies res`prev, res`next, res`home, res`state, res`pageId
      ensures Rep() && frames.hot == [page] + old(frames.hot) && frames.cold == old(frames.cold)
      ensures frames.at == old(frames.at)[page := res] && frames.freeList.nodes == old(frames.freeList.nodes)
      ensures frames.cells == old(frames.cells) + {res}
    {
      hide Queues.Valid, ListNode.Detached;
      frames.NotLinked(res);
      hist.NotLinked(res);
      res.pageId := page;
      frames.PushHot(res);
    }

    /** Evicts by the replace rule and puts page in the freed frame, in the hot list. */
    method ReplaceIntoHot(page: PageId) returns (res: ListNode, evicted: ListNode?, ghost victim: PageId)
      requires Rep() && Distinct(ArcSpec.Directory(Abs())) && hist.freeList.nodes != []
      requires ArcSpec.TakesCold(Abs(), page, thres) || frames.hot != []
      requires page !in ArcSpec.Directory(Abs())
      modifies this`histMap, Objects(), Cells()`prev, Cells()`next, Cells()`home, Cells()`state, Cells()`pageId
      ensures Rep() && var s := ArcSpec.Replace(old(Abs()), page, old(thres)); Abs() == s.(hot := [page] + s.hot)
      ensures thres == old(thres) && Records() == old(Records()) && frames.freeList.nodes == old(frames.freeList.nodes)
      ensures evicted != null && Placed(old(frames.at), frames.at, page, res, evicted, victim)
      ensures frames.cells == old(frames.cells) && hist.cells == old(hist.cells) && res in frames.cells
    {
      hide Queues.Valid, ListNode.Detached, Distinct, ArcSpec.Replace, ArcSpec.TakesCold, ArcSpec.Directory,
        ArcSpec.Victim, Placed;
      ArcSpec.ReplaceMoves(Abs(), page, thres, page);
      res, evicted := Replace(page, thres);
      victim := res.pageId;
      ghost var at1, cells1 := frames.at, frames.cells;
      PlaceHot(res, page);
      Refilled(old(frames.at), at1, frames.at, page, res, victim, old(frames.cells), cells1);
    }

    /** The same for the cold list. */
    method ReplaceIntoCold(page: PageId) returns (res: ListNode, evicted: ListNode?, ghost victim: PageId)
      requires Rep() && Distinct(ArcSpec.Directory(Abs())) && hist.freeList.nodes != []
      requires ArcSpec.TakesCold(Abs(), page, thres) || frames.hot != []
      requires page !in ArcSpec.Directory(Abs())
      modifies this`histMap, Objects(), Cells()`prev, Cells()`next, Cells()`home, Cells()`state, Cells()`pageId
      ensures Rep() && var s := ArcSpec.Replace(old(Abs()), page, old(thres)); Abs() == s.(cold := [page] + s.cold)
      ensures thres == old(thres) && Records() == old(Records()) && frames.freeList.nodes == old(frames.freeList.nodes)
      ensures evicted != null && Placed(old(frames.at), frames.at, page, res, evicted, victim)
      ensures frames.cells == old(frames.cells) && hist.cells == old(hist.cells) && res in frames.cells
    {
      hide Queues.Valid, ListNode.Detached, Distinct, ArcSpec.Replace, ArcSpec.TakesCold, ArcSpec.Directory,
        ArcSpec.Victim, Placed;
      ArcSpec.ReplaceMoves(Abs(), page, thres, page);
      res, evicted := Replace(page, thres);
      victim := res.pageId;
      ghost var at1, cells1 := frames.at, frames.cells;
      PlaceCold(res, page);
      Refilled(old(frames.at), at1, frames.at, page, res, victim, old(frames.cells), cells1);
    }

    /** The frame that gave up victim holds page, and is back among the others. */
    lemma Refilled(at0: Placing, at1: Placing, at2: Placing, page: PageId, res: ListNode, victim: PageId,
                   cells0: set<ListNode>, cells1: set<ListNode>)
      requires victim in at0 && at0[victim] == res && at1 == at0 - {victim} && at2 == at1[page := res]
      requires res in cells0 && cells1 == cells0 - {res}
      ensures Placed(at0, at2, page, res, res, victim) && cells1 + {res} == cells0
    {
    }

    /** get for a page with a record. */
    method GetRecorded(page: PageId) returns (res: ListNode, evicted: ListNode?, ghost victim: PageId)
      requires Valid() && Ready() && page !in ArcSpec.Resident(Abs()) && page in histMap
      modifies this, Objects(), Cells()`prev, Cells()`next, Cells()`home, Cells()`state, Cells()`pageId
      ensures Valid() && Ready() && Abs() == ArcSpec.Get(old(Abs()), page)
      ensures |ArcSpec.Resident(old(Abs()))| == capacity
      ensures frames.freeList.nodes == old(frames.freeList.nodes) == []
      ensures evicted != null && Placed(old(frames.at), frames.at, page, res, evicted, victim)
      ensures frames.cells == old(frames.cells) && hist.cells == old(hist.cells) && res in frames.cells
    {
      hide Queues.Valid, Distinct, ArcSpec.Inv, ArcSpec.TakesCold, ArcSpec.Replace, ArcSpec.Prepared, ArcSpec.Directory;
      hist.Member(page);
      PreparedFacts(page);
      ArcSpec.GetKeepsInv(Abs(), page);
      ArcSpec.GetSizes(Abs(), page);
      TakeRecord(page);
      res, evicted, victim := ReplaceIntoHot(page);
    }

    /** get for a page without a record, when the cold side is full and part of it is history. */
    method GetColdSideFull(page: PageId) returns (res: ListNode, evicted: ListNode?, ghost victim: PageId)
      requires Valid() && Ready() && page !in ArcSpec.Directory(Abs())
      requires |frames.cold| + |hist.cold| == capacity && |frames.cold| < capacity
      modifies this, Objects(), Cells()`prev, Cells()`next, Cells()`home, Cells()`state, Cells()`pageId
      ensures Valid() && Ready() && Abs() == ArcSpec.Get(old(Abs()), page)
      ensures |ArcSpec.Resident(old(Abs()))| == capacity
      ensures frames.freeList.nodes == old(frames.freeList.nodes) == []
      ensures evicted != null && Placed(old(frames.at), frames.at, page, res, evicted, victim)
      ensures frames.cells == old(frames.cells) && hist.cells == old(hist.cells) && res in frames.cells
    {
      hide Queues.Valid, Distinct, ArcSpec.Inv, ArcSpec.TakesCold, ArcSpec.Replace;
      InvSizes();
      PreparedFacts(page);
      ArcSpec.GetKeepsInv(Abs(), page);
      ArcSpec.GetSizes(Abs(), page);
      DropColdRecord();
      res, evicted, victim := ReplaceIntoCold(page);
    }

    /** get for a page without a record, when every frame is cold. */
    method GetAllCold(page: PageId) returns (res: ListNode, evicted: ListNode?, ghost victim: PageId)
      requires Valid() && Ready() && page !in ArcSpec.Directory(Abs()) && |frames.cold| == capacity
      modifies this, Objects(), Cells()`prev, Cells()`next, Cells()`home, Cells()`state, Cells()`pageId
      ensures Valid() && Ready() && Abs() == ArcSpec.Get(old(Abs()), page)
      ensures |ArcSpec.Resident(old(Abs()))| == capacity
      ensures frames.freeList.nodes == old(frames.freeList.nodes) == []
      ensures evicted != null && Placed(old(frames.at), frames.at, page, res, evicted, victim)
      ensures frames.cells == old(frames.cells) && hist.cells == old(hist.cells) && res in frames.cells
    {
      hide Queues.Valid, ListNode.Detached, Distinct, ArcSpec.Inv;
      InvSizes();
      ArcSpec.GetKeepsInv(Abs(), page);
      res := frames.PopCold();
      evicted := res;
      victim := res.pageId;
      PlaceCold(res, page);
    }

    /** get for a page without a record, when the directory holds at least capacity pages. */
    method GetDirectoryFull(page: PageId, total: nat) returns (res: ListNode, evicted: ListNode?, ghost victim: PageId)
      requires Valid() && Ready() && page !in ArcSpec.Directory(Abs())
      requires |frames.cold| + |hist.cold| < capacity && total == |ArcSpec.Directory(Abs())| >= capacity
      modifies this, Objects(), Cells()`prev, Cells()`next, Cells()`home, Cells()`state, Cells()`pageId
      ensures Valid() && Ready() && Abs() == ArcSpec.Get(old(Abs()), page)
      ensures |ArcSpec.Resident(old(Abs()))| == capacity
      ensures frames.freeList.nodes == old(frames.freeList.nodes) == []
      ensures evicted != null && Placed(old(frames.at), frames.at, page, res, evicted, victim)
      ensures frames.cells == old(frames.cells) && hist.cells == old(hist.cells) && res in frames.cells
    {
      hide Queues.Valid, Distinct, ArcSpec.Inv, ArcSpec.TakesCold, ArcSpec.Replace;
      InvSizes();
      PreparedFacts(page);
      ArcSpec.GetKeepsInv(Abs(), page);
      ArcSpec.GetSizes(Abs(), page);
      if total == 2 * capacity {
        DropHotRecord();
      }
      res, evicted, victim := ReplaceIntoCold(page);
    }

    /** get for a page without a record, while frames are free. */
    method GetFree(page: PageId) returns (res: ListNode)
      requires Valid() && Ready() && page !in ArcSpec.Directory(Abs())
      requires |ArcSpec.Directory(Abs())| < capacity
      modifies this, Objects(), Cells()`prev, Cells()`next, Cells()`home, Cells()`state, Cells()`pageId
      ensures Valid() && Ready() && Abs() == ArcSpec.Get(old(Abs()), page)
      ensures |ArcSpec.Resident(old(Abs()))| < capacity
      ensures TakesFree(old(frames.freeList.nodes), frames.freeList.nodes, res)
      ensures Placed(old(frames.at), frames.at, page, res, null, page)
      ensures frames.cells == old(frames.cells) && hist.cells == old(hist.cells) && res in frames.cells
    {
      hide Queues.Valid, ListNode.Detached, Distinct, ArcSpec.Inv;
      InvSizes();
      ArcSpec.GetKeepsInv(Abs(), page);
      res := frames.PopFree();
      PlaceCold(res, page);
    }

    /** The size bounds of the invariant. */
    lemma InvSizes()
      requires ArcSpec.Inv(Abs())
      ensures |frames.cold| + |hist.cold| <= capacity && |ArcSpec.Directory(Abs())| <= 2 * capacity
      ensures |ArcSpec.Resident(Abs())| <= capacity && capacity >= 1
      ensures ArcSpec.History(Abs()) != [] ==> |ArcSpec.Resident(Abs())| == capacity
    {
    }

    method Get(page: PageId) returns (res: ListNode, evicted: ListNode?, ghost victim: PageId)
      requires Valid() && Ready() && page !in ArcSpec.Resident(Abs())
      modifies this, Objects(), Cells()`prev, Cells()`next, Cells()`home, Cells()`state, Cells()`pageId
      ensures Valid() && Ready() && Abs() == ArcSpec.Get(old(Abs()), page)
      ensures evicted != null <==> |ArcSpec.Resident(old(Abs()))| == capacity
      ensures TakesFree(old(frames.freeList.nodes), frames.freeList.nodes, res)
      ensures Placed(old(frames.at), frames.at, page, res, evicted, victim)
      ensures frames.cells == old(frames.cells) && hist.cells == old(hist.cells) && res in frames.cells
    {
      hide Queues.Valid, Distinct, ArcSpec.Inv, ArcSpec.Get, Placed;
      InvSizes();
      frames.Sizes();
      hist.Sizes();
      hist.Member(page);
      if page in histMap {
        res, evicted, victim := GetRecorded(page);
        return;
      }
      if frames.coldList.size + hist.coldList.size == capacity {
        if frames.coldList.size < capacity {
          res, evicted, victim := GetColdSideFull(page);
        } else {
          res, evicted, victim := GetAllCold(page);
        }
        return;
      }
      var total := frames.coldList.size + hist.coldList.size + frames.hotList.size + hist.hotList.size;
      if total >= capacity {
        res, evicted, victim := GetDirectoryFull(page, total);
        return;
      }
      res := GetFree(page);
      evicted, victim := null, page;
    }

    /** Moves a frame to the front of hot, from whichever list it is on. */
    method MoveToHot(meta: ListNode, ghost p: PageId)
      requires frames.Valid() && p in frames.at && frames.at[p] == meta
      requires p !in frames.cold ==> Remove(frames.cold, p) == frames.cold
      requires p !in frames.hot ==> Remove(frames.hot, p) == frames.hot
      modifies frames, frames.coldList, frames.hotList
      modifies frames.cells`prev, frames.cells`next, frames.cells`home, frames.cells`state
      ensures frames.Valid() && frames.at == old(frames.at) && frames.cells == old(frames.cells)
      ensures frames.cold == Remove(old(frames.cold), p) && frames.hot == [p] + Remove(old(frames.hot), p)
      ensures frames.freeList.nodes == old(frames.freeList.nodes)
    {
      hide Queues.Valid, ListNode.Detached, Distinct, Remove;
      frames.TagOf(p);
      frames.Member(p);
      if meta.state == COLD {
        frames.ReleaseCold(meta, p);
      } else {
        frames.ReleaseHot(meta, p);
      }
      frames.Member(p);
      frames.PushHot(meta);
    }

    method Touch(meta: ListNode, ghost p: PageId)
      requires Valid() && p in ArcSpec.Resident(Abs()) && p in frames.at && frames.at[p] == meta
      modifies this, Objects(), Cells()`prev, Cells()`next, Cells()`home, Cells()`state
      ensures Valid() && Abs() == ArcSpec.Touch(old(Abs()), p)
      ensures frames.cold == Remove(old(frames.cold), p) && frames.hot == [p] + Remove(old(frames.hot), p)
      ensures thres == old(thres) && hist.cold == old(hist.cold) && hist.hot == old(hist.hot)
      ensures frames.at == old(frames.at) && frames.freeList.nodes == old(frames.freeList.nodes)
      ensures frames.cells == old(frames.cells) && hist.cells == old(hist.cells)
    {
      hide Queues.Valid, ListNode.Detached, Distinct, ArcSpec.Inv, Remove;
      ArcSpec.TouchKeepsInv(Abs(), p);
      ArcSpec.OnOneList(Abs(), p);
      MoveToHot(meta, p);
    }

    /** What get relies on between dropping history and calling replace. */
    lemma PreparedFacts(page: PageId)
      requires ArcSpec.Inv(Abs()) && page !in ArcSpec.Resident(Abs())
      ensures var s1 := ArcSpec.Prepared(Abs(), page);
              Distinct(ArcSpec.Directory(s1)) && page !in ArcSpec.Directory(s1)
      ensures var s := Abs();
              page in ArcSpec.History(s) || (|s.cold| != s.cap && |ArcSpec.Directory(s)| >= s.cap) ==>
              |ArcSpec.Resident(s)| == s.cap &&
              var s1 := ArcSpec.Prepared(s, page); ArcSpec.TakesCold(s1, page, s1.thres) || s1.hot != []
    {
      ArcSpec.PreparedDistinct(Abs(), page);
      var s := Abs();
      if page in ArcSpec.History(s) || (|s.cold| != s.cap && |ArcSpec.Directory(s)| >= s.cap) {
        ArcSpec.PreparedCanReplace(s, page);
      }
    }
  }
}
