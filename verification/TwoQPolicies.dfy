/** include/2q_policy.hh */
module TwoQPolicies {
  import opened Pages
  import opened Sequences
  import opened Lists
  import opened Placement
  import opened Queues
  import opened RecencyPools
  import LruSpec
  import TwoQSpec

  class TwoQPolicy {
    const totalCap: nat
    const coldThres: nat
    const frames: Queues          // free_list_, cold_list_, hot_list_
    const recent: RecencyPool?    // null is the NullRecencyStore

    ghost function Abs(): TwoQSpec.TwoQ
      reads this, frames, recent
    {
      if recent == null then TwoQSpec.TwoQ(totalCap, frames.cold, frames.hot, 0, [])
      else TwoQSpec.TwoQ(totalCap, frames.cold, frames.hot, recent.capacity, recent.keys)
    }

    ghost function Objects(): set<object> {
      {frames, frames.freeList, frames.coldList, frames.hotList} + if recent == null then {} else {recent, recent.list}
    }

    ghost function StoreCells(): set<ListNode>
      reads recent
    {
      if recent == null then {} else recent.cells
    }

    ghost function Cells(): set<ListNode>
      reads frames, recent
    {
      frames.cells + StoreCells()
    }

    /** The store keeps its own nodes. */
    ghost predicate StoreValid()
      reads this, Objects()
      reads Cells()`prev, Cells()`next, Cells()`home, Cells()`state, Cells()`pageId
    {
      recent != null ==>
        && recent.Valid() && recent.capacity >= 1
        && recent.list !in {frames.freeList, frames.coldList, frames.hotList}
        && recent.cells !! frames.cells
    }

    ghost predicate Valid()
      reads this, Objects()
      reads Cells()`prev, Cells()`next, Cells()`home, Cells()`state, Cells()`pageId
    {
      && frames.Valid() && StoreValid()
      && TwoQSpec.Inv(Abs()) && coldThres == TwoQSpec.ColdThres(Abs())
      && INVALID_ID !in TwoQSpec.Resident(Abs())
      && |frames.freeList.nodes| + |TwoQSpec.Resident(Abs())| <= totalCap
    }

    ghost predicate Ready()
      reads this, Objects()
    {
      |frames.freeList.nodes| + |TwoQSpec.Resident(Abs())| == totalCap
    }

    constructor (c: nat, useStore: bool, recencyCap: nat)
      requires c > 0 && (useStore ==> recencyCap > 0)
      ensures Valid() && Abs() == TwoQSpec.Start(c, if useStore then recencyCap else 0)
      ensures c <= 4 * coldThres < c + 4
      ensures frames.at == map[] && frames.freeList.nodes == [] && fresh(Objects()) && fresh(Cells())
    {
      hide Queues.Valid, RecencyPool.Valid, Distinct;
      totalCap := c;
      coldThres := (c + 3) / 4;
      var store := NewStore(useStore, recencyCap);
      recent := store;
      frames := new Queues();
      new;
      TwoQSpec.StartKeepsInv(c, if useStore then recencyCap else 0);
    }

    method RegisterMetadata(meta: ListNode)
      requires Valid() && !Ready() && meta.Detached()
      modifies frames, frames.freeList, Cells()`prev, Cells()`next, meta`prev, meta`next, meta`home
      ensures Valid() && Abs() == old(Abs()) && frames.at == old(frames.at)
      ensures frames.freeList.nodes == [meta] + old(frames.freeList.nodes)
      ensures frames.cells == old(frames.cells) + {meta}
    {
      hide Queues.Valid, ListNode.Detached, TwoQSpec.Inv, RecencyPool.Valid;
      if recent != null { recent.NotLinked(meta); }
      frames.Sizes();
      assert totalCap >= frames.freeList.size;
      frames.PushFree(meta);
    }

    /** The lambda pick_victim of evict_one. */
    method PickVictim() returns (victim: ListNode)
      requires Valid() && TwoQSpec.HasVictim(Abs())
      modifies frames, frames.coldList, frames.hotList, Cells()`prev, Cells()`next, Cells()`home
      ensures frames.Valid() && StoreValid() && victim.Detached()
      ensures victim.pageId == TwoQSpec.Victim(old(Abs()))
      ensures victim.pageId in old(frames.at) && old(frames.at)[victim.pageId] == victim
      ensures frames.at == old(frames.at) - {victim.pageId}
      ensures frames.cold == TwoQSpec.Evict(old(Abs())).cold && frames.hot == TwoQSpec.Evict(old(Abs())).hot
      ensures var cold, hot := old(frames.cold), old(frames.hot);
              if 4 * (|cold| - 1) >= totalCap
              then frames.cold == Init(cold) && frames.hot == hot && victim.pageId == Last(cold)
              else hot != [] && frames.cold == cold && frames.hot == Init(hot) && victim.pageId == Last(hot)
      ensures frames.freeList.nodes == old(frames.freeList.nodes)
      ensures frames.cells == old(frames.cells) - {victim} && victim in old(frames.cells)
      ensures StoreCells() == old(StoreCells()) && (recent != null ==> recent.keys == old(recent.keys))
    {
      hide Queues.Valid, ListNode.Detached, TwoQSpec.Inv, RecencyPool.Valid, LruSpec.Bump;
      frames.Sizes();
      if frames.coldList.size > coldThres {
        victim := frames.PopCold();
        return;
      }
      assert !frames.hotList.Empty();
      victim := frames.PopHot();
    }

    /** The victim moves to the free list. */
    method FreeVictim() returns (victim: ListNode)
      requires Valid() && TwoQSpec.HasVictim(Abs())
      modifies frames, frames.freeList, frames.coldList, frames.hotList
      modifies Cells()`prev, Cells()`next, Cells()`home
      ensures frames.Valid() && StoreValid()
      ensures victim.pageId == TwoQSpec.Victim(old(Abs()))
      ensures victim.pageId in old(frames.at) && old(frames.at)[victim.pageId] == victim
      ensures frames.at == old(frames.at) - {victim.pageId}
      ensures frames.cold == TwoQSpec.Evict(old(Abs())).cold && frames.hot == TwoQSpec.Evict(old(Abs())).hot
      ensures var cold, hot := old(frames.cold), old(frames.hot);
              if 4 * (|cold| - 1) >= totalCap
              then frames.cold == Init(cold) && frames.hot == hot && victim.pageId == Last(cold)
              else hot != [] && frames.cold == cold && frames.hot == Init(hot) && victim.pageId == Last(hot)
      ensures frames.freeList.nodes == [victim] + old(frames.freeList.nodes)
      ensures frames.cells == old(frames.cells) && victim in frames.cells
      ensures StoreCells() == old(StoreCells()) && (recent != null ==> recent.keys == old(recent.keys))
    {
      hide Queues.Valid, ListNode.Detached, TwoQSpec.Inv, RecencyPool.Valid, LruSpec.Bump, TwoQSpec.Evict,
        TwoQSpec.Victim;
      victim := PickVictim();
      frames.PushFree(victim);
    }

    /** recent_pool_.insert; the void pool stores no value, and the null store does nothing. */
    method RememberEvicted(page: PageId)
      requires StoreValid() && page != INVALID_ID
      modifies if recent == null then {} else {recent, recent.list}
      modifies StoreCells()`prev, StoreCells()`next, StoreCells()`home, StoreCells()`pageId
      ensures StoreValid() && StoreCells() == old(StoreCells())
      ensures recent != null ==> recent.keys == LruSpec.Bump(old(recent.keys), page, recent.capacity)
    {
      hide RecencyPool.Valid, LruSpec.Bump;
      if recent != null {
        recent.Insert(page, []);
      }
    }

    method EvictOne() returns (victim: ListNode)
      requires Valid() && TwoQSpec.HasVictim(Abs()) && !TwoQSpec.HasRoom(Abs())
      modifies Objects(), Cells()`prev, Cells()`next, Cells()`home, Cells()`state, Cells()`pageId
      ensures Valid() && Abs() == TwoQSpec.Evict(old(Abs()))
      ensures var v := TwoQSpec.Victim(old(Abs()));
              v in old(frames.at) && old(frames.at)[v] == victim && frames.at == old(frames.at) - {v}
      ensures var cold, hot := old(frames.cold), old(frames.hot);
              if 4 * (|cold| - 1) >= totalCap
              then frames.cold == Init(cold) && frames.hot == hot && TwoQSpec.Victim(old(Abs())) == Last(cold)
              else hot != [] && frames.cold == cold && frames.hot == Init(hot)
                   && TwoQSpec.Victim(old(Abs())) == Last(hot)
      ensures frames.freeList.nodes == [victim] + old(frames.freeList.nodes)
      ensures frames.cells == old(frames.cells) && victim in frames.cells && StoreCells() == old(StoreCells())
    {
      hide Queues.Valid, RecencyPool.Valid, LruSpec.Bump, Distinct, TwoQSpec.Inv, TwoQSpec.Victim, TwoQSpec.HasVictim;
      TwoQSpec.EvictKeepsInv(Abs());
      victim := FreeVictim();
      RecordVictim(victim);
    }

    method RecordVictim(victim: ListNode)
      requires frames.Valid() && StoreValid() && victim in frames.freeList.nodes && victim.pageId != INVALID_ID
      requires victim !in StoreCells()
      modifies if recent == null then {} else {recent, recent.list}
      modifies StoreCells()`prev, StoreCells()`next, StoreCells()`home, StoreCells()`pageId, victim`state
      ensures frames.Valid() && StoreValid() && StoreCells() == old(StoreCells())
      ensures recent != null ==> recent.keys == LruSpec.Bump(old(recent.keys), victim.pageId, recent.capacity)
    {
      hide Queues.Valid, RecencyPool.Valid, LruSpec.Bump;
      var victimId := victim.pageId;
      RememberEvicted(victimId);
      frames.MarkFree(victim);
    }

    /** Puts a detached frame under page into hot or cold, as the store decides. */
    method Enter(res: ListNode, page: PageId)
      requires frames.Valid() && StoreValid() && res.Detached() && res.pageId == page
      requires page !in frames.cold && page !in frames.hot
      modifies frames, frames.coldList, frames.hotList
      modifies frames.cells`prev, frames.cells`next, res`prev, res`next, res`home, res`state
      ensures frames.Valid() && StoreValid()
      ensures if recent != null && page in recent.keys
              then frames.hot == [page] + old(frames.hot) && frames.cold == old(frames.cold)
              else frames.cold == [page] + old(frames.cold) && frames.hot == old(frames.hot)
      ensures frames.at == old(frames.at)[page := res] && frames.freeList.nodes == old(frames.freeList.nodes)
      ensures frames.cells == old(frames.cells) + {res}
      ensures StoreCells() == old(StoreCells()) && (recent != null ==> recent.keys == old(recent.keys))
    {
      hide Queues.Valid, ListNode.Detached, RecencyPool.Valid;
      var inStore := false;
      if recent != null {
        recent.NotLinked(res);
        inStore := recent.Contains(page);
      }
      if inStore {
        frames.PushHot(res);
      } else {
        frames.PushCold(res);
      }
    }

    method Get(page: PageId) returns (res: ListNode, evicted: ListNode?, ghost victim: PageId)
      requires Valid() && Ready() && page !in TwoQSpec.Resident(Abs()) && page != INVALID_ID
      requires TwoQSpec.HasRoom(Abs()) || TwoQSpec.HasVictim(Abs())
      modifies Objects(), Cells()`prev, Cells()`next, Cells()`home, Cells()`state, Cells()`pageId
      ensures Valid() && Ready() && Abs() == TwoQSpec.Get(old(Abs()), page)
      ensures evicted != null <==> !TwoQSpec.HasRoom(old(Abs()))
      ensures TakesFree(old(frames.freeList.nodes), frames.freeList.nodes, res)
      ensures Placed(old(frames.at), frames.at, page, res, evicted, victim)
      ensures frames.cells == old(frames.cells) && res in frames.cells && StoreCells() == old(StoreCells())
    {
      hide Queues.Valid, RecencyPool.Valid, LruSpec.Bump, Distinct, TwoQSpec.Evict, TwoQSpec.HasVictim,
        ListNode.Detached;
      frames.Sizes();
      if !TwoQSpec.HasRoom(Abs()) { TwoQSpec.EvictKeepsInv(Abs()); }
      evicted, victim := null, page;
      if frames.freeList.Empty() {
        victim := TwoQSpec.Victim(Abs());
        evicted := EvictOne();
      }
      res := TakeFree(page);
    }

    /** The part of get that takes a free frame. */
    method TakeFree(page: PageId) returns (res: ListNode)
      requires Valid() && frames.freeList.nodes != [] && page !in TwoQSpec.Resident(Abs()) && page != INVALID_ID
      requires TwoQSpec.HasRoom(Abs())
      modifies Objects(), Cells()`prev, Cells()`next, Cells()`home, Cells()`state, Cells()`pageId
      ensures Valid() && Abs() == TwoQSpec.Get(old(Abs()), page)
      ensures frames.freeList.nodes == Init(old(frames.freeList.nodes)) && res == Last(old(frames.freeList.nodes))
      ensures Placed(old(frames.at), frames.at, page, res, null, page)
      ensures frames.cells == old(frames.cells) && res in frames.cells && StoreCells() == old(StoreCells())
    {
      hide Queues.Valid, RecencyPool.Valid, LruSpec.Bump, Distinct, TwoQSpec.Inv, ListNode.Detached;
      TwoQSpec.EnterKeepsInv(Abs(), page);
      res := frames.PopFree();
      res.pageId := page;
      Enter(res, page);
    }

    /** Moves a frame to the front of hot. */
    method MoveToHot(meta: ListNode, ghost p: PageId, fromHot: bool)
      requires frames.Valid() && StoreValid() && p in frames.at && frames.at[p] == meta
      requires if fromHot then p in frames.hot else p in frames.cold
      modifies frames, frames.coldList, frames.hotList
      modifies frames.cells`prev, frames.cells`next, frames.cells`home, frames.cells`state
      ensures frames.Valid() && StoreValid()
      ensures frames.hot == [p] + (if fromHot then Remove(old(frames.hot), p) else old(frames.hot))
      ensures frames.cold == if fromHot then old(frames.cold) else Remove(old(frames.cold), p)
      ensures frames.at == old(frames.at) && frames.freeList.nodes == old(frames.freeList.nodes)
      ensures frames.cells == old(frames.cells)
    {
      hide Queues.Valid, RecencyPool.Valid, Distinct, ListNode.Detached, Remove;
      frames.TagOf(p);
      if fromHot {
        frames.ReleaseHot(meta, p);
      } else {
        frames.ReleaseCold(meta, p);
      }
      frames.Member(p);
      frames.PushHot(meta);
    }

    method Touch(meta: ListNode, ghost p: PageId)
      requires Valid() && p in TwoQSpec.Resident(Abs()) && p in frames.at && frames.at[p] == meta
      modifies Objects(), Cells()`prev, Cells()`next, Cells()`home, Cells()`state
      ensures Valid() && Abs() == TwoQSpec.Touch(old(Abs()), p)
      ensures frames.at == old(frames.at) && frames.freeList.nodes == old(frames.freeList.nodes)
      ensures frames.cells == old(frames.cells) && StoreCells() == old(StoreCells())
    {
      hide Queues.Valid, RecencyPool.Valid, Distinct, TwoQSpec.Inv, ListNode.Detached, Remove;
      TwoQSpec.TouchKeepsInv(Abs(), p);
      frames.TagOf(p);
      if meta.state == HOT {
        MoveToHot(meta, p, true);
      } else if recent == null {
        MoveToHot(meta, p, false);
      }
    }
  }
}
