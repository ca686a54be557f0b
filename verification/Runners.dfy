/** include/runner.hh and include/stats.hh */
module Runners {
  import opened Pages
  import opened Placement
  import opened BufPools
  import opened TraceLaws
  import Policies
  import Machines

  class RunStatistics {
    var accesses: nat
    var hits: nat
    var misses: nat
    var evictions: nat

    ghost function View(): Counts
      reads this
    {
      Counts(accesses, hits, misses, evictions)
    }

    constructor ()
      ensures View() == Counts(0, 0, 0, 0)
    {
      accesses, hits, misses, evictions := 0, 0, 0, 0;
    }

    method Record(result: AccessResult)
      modifies this
      ensures View() == Recorded(old(View()), result)
    {
      accesses := accesses + 1;
      if result.hit {
        hits := hits + 1;
      } else {
        misses := misses + 1;
      }
      if result.eviction {
        evictions := evictions + 1;
      }
    }

    /** hit_rate, without the rounding */
    function HitRate(): (r: real)
      requires hits <= accesses
      reads this
      ensures 0.0 <= r <= 1.0 && (r == 1.0 <==> accesses > 0 && hits == accesses)
      ensures r * accesses as real == hits as real
    {
      if accesses == 0 then 0.0 else hits as real / accesses as real
    }
  }

  class BufPoolRunner {
    const bufpool: BufPool

    ghost predicate Valid()
      reads bufpool, bufpool.objects, bufpool.cells`prev, bufpool.cells`next, bufpool.cells`home, bufpool.cells`state
      reads bufpool.cells`pageId, bufpool.cells`lastAccess, bufpool.cells`heapId, bufpool.frames`handleId
    {
      bufpool.Valid()
    }

    constructor (kind: Policies.Kind, capacity: nat)
      requires Policies.Constructible(kind, capacity)
      ensures Valid() && bufpool.Model() == Policies.Start(kind, capacity) && bufpool.callbacks == 0
      ensures fresh(bufpool) && fresh(bufpool.objects) && fresh(bufpool.cells) && fresh(bufpool.frames)
    {
      bufpool := new BufPool(kind, capacity);
    }

    /** The eviction flag is raised exactly when the policy calls back. */
    method Access(entry: PageId) returns (result: AccessResult)
      requires Valid() && entry != INVALID_ID
      modifies bufpool`lookup, bufpool`callbacks, bufpool.objects, bufpool.cells`prev, bufpool.cells`next
      modifies bufpool.cells`home, bufpool.cells`state, bufpool.cells`pageId, bufpool.cells`lastAccess
      modifies bufpool.cells`heapId, bufpool.frames`handleId
      ensures Valid() && Machines.Inv(old(bufpool.Model()))
      ensures bufpool.Model() == Machines.Access(old(bufpool.Model()), entry)
      ensures result == Outcome(old(bufpool.Model()), entry)
      ensures bufpool.callbacks == old(bufpool.callbacks) + if result.eviction then 1 else 0
      ensures Steady(old(bufpool.lookup), bufpool.lookup)
    {
      hide BufPool.Valid, BufPool.Model, Machines.Access, Machines.Inv;
      bufpool.LookupSize();
      var hit := bufpool.Contains(entry);
      var eviction := !hit && bufpool.ResidentPages() == bufpool.Capacity();
      var page := bufpool.GetPage(entry);
      result := AccessResult(hit, eviction);
    }
  }

  /** stats.record(runner.access(entry)) */
  method RecordAccess(runner: BufPoolRunner, stats: RunStatistics, entry: PageId)
    requires runner.Valid() && entry != INVALID_ID && stats !in runner.bufpool.objects
    modifies stats, runner.bufpool`lookup, runner.bufpool`callbacks, runner.bufpool.objects
    modifies runner.bufpool.cells`prev, runner.bufpool.cells`next, runner.bufpool.cells`home, runner.bufpool.cells`state
    modifies runner.bufpool.cells`pageId, runner.bufpool.cells`lastAccess, runner.bufpool.cells`heapId
    modifies runner.bufpool.frames`handleId
    ensures runner.Valid() && Machines.Inv(old(runner.bufpool.Model()))
    ensures runner.bufpool.Model() == Machines.Access(old(runner.bufpool.Model()), entry)
    ensures stats.View() == Recorded(old(stats.View()), Outcome(old(runner.bufpool.Model()), entry))
    ensures runner.bufpool.callbacks - old(runner.bufpool.callbacks) == stats.evictions - old(stats.evictions)
    ensures runner.bufpool.lookup.Keys == Machines.Resident(runner.bufpool.Model())
    ensures Steady(old(runner.bufpool.lookup), runner.bufpool.lookup)
  {
    hide BufPool.Valid, BufPool.Model, Machines.Access, Machines.Inv;
    runner.bufpool.LookupSize();
    var result := runner.Access(entry);
    stats.Record(result);
    runner.bufpool.LookupSize();
  }

  /** Every page that stays resident over t keeps its frame. */
  ghost predicate KeepsFrames(at: Placing, at': Placing, m: Machines.Machine, t: seq<PageId>)
    requires Machines.Inv(m)
  {
    forall q :: Stays(m, t, q) ==> q in at && q in at' && at'[q] == at[q]
  }

  lemma KeepsFramesNext(at: Placing, at1: Placing, at2: Placing, m: Machines.Machine, t: seq<PageId>, i: nat)
    requires Machines.Inv(m) && i < |t| && KeepsFrames(at, at1, m, t[..i])
    requires Steady(at1, at2) && at2.Keys == Machines.Resident(Run(m, t[..i + 1]))
    ensures KeepsFrames(at, at2, m, t[..i + 1])
  {
    Next(m, t, i);
    hide Stays, Run;
  }

  lemma KeepsFramesStart(at: Placing, m: Machines.Machine)
    requires Machines.Inv(m) && at.Keys == Machines.Resident(m)
    ensures KeepsFrames(at, at, m, [])
  {
  }

  method RunTrace(runner: BufPoolRunner, traces: seq<PageId>) returns (stats: RunStatistics)
    requires runner.Valid() && INVALID_ID !in traces
    modifies runner.bufpool`lookup, runner.bufpool`callbacks, runner.bufpool.objects
    modifies runner.bufpool.cells`prev, runner.bufpool.cells`next, runner.bufpool.cells`home, runner.bufpool.cells`state
    modifies runner.bufpool.cells`pageId, runner.bufpool.cells`lastAccess, runner.bufpool.cells`heapId
    modifies runner.bufpool.frames`handleId
    ensures runner.Valid() && fresh(stats) && Machines.Inv(old(runner.bufpool.Model()))
    ensures runner.bufpool.Model() == Run(old(runner.bufpool.Model()), traces)
    ensures stats.View() == Count(old(runner.bufpool.Model()), traces)
    ensures runner.bufpool.callbacks == old(runner.bufpool.callbacks) + stats.evictions
    ensures KeepsFrames(old(runner.bufpool.lookup), runner.bufpool.lookup, old(runner.bufpool.Model()), traces)
  {
    hide BufPool.Valid, BufPool.Model, Machines.Access, Machines.Inv, Recorded, Outcome, KeepsFrames, Steady;
    runner.bufpool.LookupSize();
    ghost var m := runner.bufpool.Model();
    KeepsFramesStart(runner.bufpool.lookup, m);
    stats := new RunStatistics();
    var i := 0;
    while i < |traces|
      invariant 0 <= i <= |traces| && runner.Valid() && fresh(stats)
      invariant runner.bufpool.Model() == Run(m, traces[..i]) && stats.View() == Count(m, traces[..i])
      invariant runner.bufpool.callbacks == old(runner.bufpool.callbacks) + stats.evictions
      invariant KeepsFrames(old(runner.bufpool.lookup), runner.bufpool.lookup, m, traces[..i])
    {
      Next(m, traces, i);
      ghost var at := runner.bufpool.lookup;
      RecordAccess(runner, stats, traces[i]);
      KeepsFramesNext(old(runner.bufpool.lookup), at, runner.bufpool.lookup, m, traces, i);
      i := i + 1;
    }
    assert traces[..i] == traces;
  }

  /** SpanLoader of include/loader.hh. */
  class SpanLoader {
    const view: seq<PageId>
    var cursor: nat

    /** What get has not delivered yet. */
    ghost function Rest(): seq<PageId>
      reads this
    {
      if cursor <= |view| then view[cursor..] else []
    }

    constructor (view: seq<PageId>)
      ensures Rest() == view
    {
      this.view, cursor := view, 0;
    }

    predicate Done()
      reads this
      ensures Done() <==> Rest() == []
    {
      cursor >= |view|
    }

    method Get() returns (entry: PageId)
      requires Rest() != []
      modifies this`cursor
      ensures entry == old(Rest())[0] && Rest() == old(Rest())[1..]
    {
      entry := view[cursor];
      cursor := cursor + 1;
    }
  }

  method RunLoader(runner: BufPoolRunner, loader: SpanLoader) returns (stats: RunStatistics)
    requires runner.Valid() && INVALID_ID !in loader.Rest() && loader !in runner.bufpool.objects
    modifies loader`cursor, runner.bufpool`lookup, runner.bufpool`callbacks, runner.bufpool.objects
    modifies runner.bufpool.cells`prev, runner.bufpool.cells`next, runner.bufpool.cells`home, runner.bufpool.cells`state
    modifies runner.bufpool.cells`pageId, runner.bufpool.cells`lastAccess, runner.bufpool.cells`heapId
    modifies runner.bufpool.frames`handleId
    ensures runner.Valid() && fresh(stats) && loader.Done() && Machines.Inv(old(runner.bufpool.Model()))
    ensures runner.bufpool.Model() == Run(old(runner.bufpool.Model()), old(loader.Rest()))
    ensures stats.View() == Count(old(runner.bufpool.Model()), old(loader.Rest()))
    ensures runner.bufpool.callbacks == old(runner.bufpool.callbacks) + stats.evictions
    ensures KeepsFrames(old(runner.bufpool.lookup), runner.bufpool.lookup,
                        old(runner.bufpool.Model()), old(loader.Rest()))
  {
    hide BufPool.Valid, BufPool.Model, Machines.Access, Machines.Inv, SpanLoader.Rest, Recorded, Outcome, KeepsFrames,
      Steady;
    runner.bufpool.LookupSize();
    ghost var m, t, i := runner.bufpool.Model(), loader.Rest(), 0;
    KeepsFramesStart(runner.bufpool.lookup, m);
    stats := new RunStatistics();
    while !loader.Done()
      invariant 0 <= i <= |t| && loader.Rest() == t[i..]
      invariant runner.Valid() && fresh(stats)
      invariant runner.bufpool.Model() == Run(m, t[..i]) && stats.View() == Count(m, t[..i])
      invariant runner.bufpool.callbacks == old(runner.bufpool.callbacks) + stats.evictions
      invariant KeepsFrames(old(runner.bufpool.lookup), runner.bufpool.lookup, m, t[..i])
      decreases |t| - i
    {
      Next(m, t, i);
      var entry := loader.Get();
      ghost var at := runner.bufpool.lookup;
      RecordAccess(runner, stats, entry);
      KeepsFramesNext(old(runner.bufpool.lookup), at, runner.bufpool.lookup, m, t, i);
      i := i + 1;
    }
    assert t[..i] == t;
  }
}
