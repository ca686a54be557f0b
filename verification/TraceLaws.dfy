/** What the statistics of include/runner.hh and include/stats.hh say about whole traces, for every policy. */
module TraceLaws {
  import opened Sequences
  import opened Pages
  import opened Machines
  import LruSpec
  import TwoQSpec
  import LruKSpec
  import ArcSpec
  import ArcTheorems

  /** RunStatistics */
  datatype Counts = Counts(accesses: nat, hits: nat, misses: nat, evictions: nat)

  /** AccessResult */
  datatype AccessResult = AccessResult(hit: bool, eviction: bool)

  /** The machine after a trace. */
  ghost function Run(m: Machine, t: seq<PageId>): (m': Machine)
    requires Inv(m)
    ensures Inv(m') && Cap(m') == Cap(m)
  {
    if t == [] then m
    else
      AccessStep(Run(m, Init(t)), Last(t));
      Access(Run(m, Init(t)), Last(t))
  }

  /** BufPoolRunner::access: what it reports. */
  ghost function Outcome(m: Machine, p: PageId): AccessResult {
    AccessResult(p in Resident(m), p !in Resident(m) && |Resident(m)| == Cap(m))
  }

  /** RunStatistics::record */
  ghost function Recorded(c: Counts, r: AccessResult): Counts {
    Counts(
      c.accesses + 1,
      c.hits + if r.hit then 1 else 0,
      c.misses + if r.hit then 0 else 1,
      c.evictions + if r.eviction then 1 else 0)
  }

  /** run_trace: the statistics of a trace. */
  ghost function Count(m: Machine, t: seq<PageId>): Counts
    requires Inv(m)
  {
    if t == [] then Counts(0, 0, 0, 0)
    else Recorded(Count(m, Init(t)), Outcome(Run(m, Init(t)), Last(t)))
  }

  /** q is resident at the start and after every access. */
  ghost predicate Stays(m: Machine, t: seq<PageId>, q: PageId)
    requires Inv(m)
  {
    q in Resident(Run(m, t)) && (t != [] ==> Stays(m, Init(t), q))
  }

  lemma {:induction false} StaysIff(m: Machine, t: seq<PageId>, q: PageId)
    requires Inv(m)
    ensures Stays(m, t, q) <==> forall i :: 0 <= i <= |t| ==> q in Resident(Run(m, t[..i]))
  {
    hide Access, Inv, Resident, Run;
    assert t[..|t|] == t;
    if t != [] {
      StaysIff(m, Init(t), q);
      forall i | 0 <= i < |t|
        ensures Init(t)[..i] == t[..i]
      {
      }
    }
  }

  lemma Next(m: Machine, t: seq<PageId>, i: nat)
    requires Inv(m) && i < |t|
    ensures Run(m, t[..i + 1]) == Access(Run(m, t[..i]), t[i])
    ensures Count(m, t[..i + 1]) == Recorded(Count(m, t[..i]), Outcome(Run(m, t[..i]), t[i]))
    ensures forall q :: Stays(m, t[..i + 1], q) ==> Stays(m, t[..i], q) && q in Resident(Run(m, t[..i + 1]))
  {
    assert Init(t[..i + 1]) == t[..i];
  }

  /** Every access hits or misses, and every page that was fetched is still resident or was evicted. */
  lemma {:induction false} Conservation(m: Machine, t: seq<PageId>)
    requires Inv(m)
    ensures var c, r := Count(m, t), |Resident(Run(m, t))|;
            && c.accesses == |t| && c.hits + c.misses == c.accesses
            && |Resident(m)| + c.misses == r + c.evictions
            && r == if |Resident(m)| + c.misses <= Cap(m) then |Resident(m)| + c.misses else Cap(m)
  {
    if t == [] {
      AccessStep(m, 0);
    } else {
      Conservation(m, Init(t));
      AccessStep(Run(m, Init(t)), Last(t));
      hide Access, Inv, Resident;
    }
  }

  /** On a fresh pool: evictions are the misses beyond the capacity. */
  lemma FreshPool(m: Machine, t: seq<PageId>)
    requires Inv(m) && Resident(m) == {}
    ensures var c := Count(m, t);
            && |Resident(Run(m, t))| == (if c.misses <= Cap(m) then c.misses else Cap(m))
            && c.evictions == (if c.misses <= Cap(m) then 0 else c.misses - Cap(m))
  {
    Conservation(m, t);
  }

  lemma {:induction false} ResidentWasRequested(m: Machine, t: seq<PageId>)
    requires Inv(m) && Resident(m) == {}
    ensures Resident(Run(m, t)) <= Elems(t)
  {
    if t != [] {
      ResidentWasRequested(m, Init(t));
      AccessStep(Run(m, Init(t)), Last(t));
      ElemsInit(t);
      hide Access, Inv, Resident, Elems;
    }
  }

  /** No policy avoids the first miss of a page. */
  lemma {:induction false} CompulsoryMisses(m: Machine, t: seq<PageId>)
    requires Inv(m) && Resident(m) == {}
    ensures Count(m, t).misses >= |Elems(t)|
  {
    if t != [] {
      CompulsoryMisses(m, Init(t));
      ResidentWasRequested(m, Init(t));
      ElemsInit(t);
      hide Access, Inv, Resident, Elems;
    }
  }

  /** A trace that fits in the pool keeps everything it requested. */
  lemma {:induction false} FittingTraceStays(m: Machine, t: seq<PageId>)
    requires Inv(m) && Resident(m) == {} && |Elems(t)| <= Cap(m)
    ensures Resident(Run(m, t)) == Elems(t)
  {
    hide Access, Inv, Elems;
    if t == [] {
      ElemsNone(t);
    } else {
      ElemsInit(t);
      SubsetSize(Elems(Init(t)), Elems(t));
      FittingTraceStays(m, Init(t));
      AccessStep(Run(m, Init(t)), Last(t));
      if Last(t) !in Elems(Init(t)) {
        assert |Elems(t)| == |Elems(Init(t))| + 1;
        RequestedWithRoom(Resident(Run(m, Init(t))), Resident(Run(m, t)), Last(t), Cap(m));
      }
    }
  }

  lemma {:induction false} FittingTrace(m: Machine, t: seq<PageId>)
    requires Inv(m) && Resident(m) == {} && |Elems(t)| <= Cap(m)
    ensures Count(m, t).misses == |Elems(t)| && Count(m, t).evictions == 0
  {
    hide Access, Inv, Elems;
    if t == [] {
      ElemsNone(t);
    } else {
      ElemsInit(t);
      SubsetSize(Elems(Init(t)), Elems(t));
      FittingTrace(m, Init(t));
      FittingTraceStays(m, Init(t));
      if Last(t) !in Elems(Init(t)) {
        assert |Elems(t)| == |Elems(Init(t))| + 1;
      }
    }
  }

  /** Such a trace misses each page exactly once, at its first request. */
  lemma FittingTraceMissesOnce(m: Machine, t: seq<PageId>, i: nat)
    requires Inv(m) && Resident(m) == {} && |Elems(t)| <= Cap(m) && i < |t|
    ensures t[i] !in Resident(Run(m, t[..i])) <==> t[i] !in t[..i]
  {
    assert Elems(t[..i]) <= Elems(t);
    SubsetSize(Elems(t[..i]), Elems(t));
    FittingTraceStays(m, t[..i]);
  }

  // ----- The machines are those of the policies' own theorems -----

  lemma {:induction false} LruRun(c: nat, t: seq<PageId>)
    requires c >= 1
    ensures Run(Lru(c, []), t) == Lru(c, LruSpec.Run(c, t))
    ensures Count(Lru(c, []), t).hits == LruSpec.Hits(c, t)
  {
    if t != [] { LruRun(c, Init(t)); }
  }

  lemma {:induction false} TwoQRun(c: nat, recCap: nat, t: seq<PageId>)
    requires c >= 2
    ensures Inv(TwoQ(TwoQSpec.Start(c, recCap)))
    ensures Run(TwoQ(TwoQSpec.Start(c, recCap)), t) == TwoQ(TwoQSpec.Run(c, recCap, t))
  {
    if t != [] {
      TwoQRun(c, recCap, Init(t));
      TwoQCanAccess(TwoQSpec.Run(c, recCap, Init(t)));
    }
  }

  lemma {:induction false} LruKRun(k: nat, c: nat, grace: nat, recCap: nat, t: seq<PageId>)
    requires k >= 2 && c >= 1
    ensures Inv(LruK(LruKSpec.Start(k, c, grace, recCap)))
    ensures Run(LruK(LruKSpec.Start(k, c, grace, recCap)), t) == LruK(LruKSpec.Run(k, c, grace, recCap, t))
  {
    LruKSpec.StartKeepsInv(k, c, grace, recCap);
    hide LruKSpec.Inv, LruKSpec.Access;
    if t != [] { LruKRun(k, c, grace, recCap, Init(t)); }
  }

  lemma {:induction false} ArcRun(c: nat, thres: nat, t: seq<PageId>)
    requires c >= 1 && thres <= c
    ensures Inv(Arc(ArcTheorems.Start(c, thres)))
    ensures Run(Arc(ArcTheorems.Start(c, thres)), t) == Arc(ArcTheorems.Run(c, thres, t))
  {
    ArcSpec.StartKeepsInv(c, thres);
    hide ArcSpec.Inv, ArcSpec.Access;
    if t != [] { ArcRun(c, thres, Init(t)); }
  }
}
