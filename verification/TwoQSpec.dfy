/** The two-queue policy of include/2q_policy.hh as a pure machine, and what it guarantees. */
module TwoQSpec {
  import opened Sequences
  import opened Pages
  import LruSpec

  /** recCap is the capacity of the RecencyPool store; 0 stands for NullRecencyStore. */
  datatype TwoQ = TwoQ(cap: nat, cold: seq<PageId>, hot: seq<PageId>, recCap: nat, recent: seq<PageId>)

  /** cold_thres_: a quarter of the capacity, rounded up. */
  ghost function ColdThres(s: TwoQ): (t: nat)
    ensures s.cap <= 4 * t < s.cap + 4
  {
    (s.cap + 3) / 4
  }

  ghost function Resident(s: TwoQ): seq<PageId> { s.cold + s.hot }

  ghost predicate Inv(s: TwoQ) {
    && s.cap >= 1
    && Distinct(Resident(s))
    && |Resident(s)| <= s.cap
    && Distinct(s.recent)
    && |s.recent| <= s.recCap
  }

  ghost predicate HasVictim(s: TwoQ) {
    |s.cold| > ColdThres(s) || s.hot != []
  }

  ghost predicate HasRoom(s: TwoQ) {
    |Resident(s)| < s.cap
  }

  ghost function Victim(s: TwoQ): PageId
    requires HasVictim(s)
  {
    if |s.cold| > ColdThres(s) then Last(s.cold) else Last(s.hot)
  }

  /** S2QPolicy_::evict_one. */
  ghost function Evict(s: TwoQ): TwoQ
    requires HasVictim(s)
  {
    var recent := LruSpec.Bump(s.recent, Victim(s), s.recCap);
    if |s.cold| > ColdThres(s)
    then s.(cold := Init(s.cold), recent := recent)
    else s.(hot := Init(s.hot), recent := recent)
  }

  /** The state in which get looks the page up: one frame is free. */
  ghost function WithRoom(s: TwoQ): TwoQ
    requires HasRoom(s) || HasVictim(s)
  {
    if HasRoom(s) then s else Evict(s)
  }

  /** S2QPolicy_::get. */
  ghost function Get(s: TwoQ, p: PageId): TwoQ
    requires HasRoom(s) || HasVictim(s)
  {
    var s1 := WithRoom(s);
    if p in s1.recent then s1.(hot := [p] + s1.hot) else s1.(cold := [p] + s1.cold)
  }

  /** S2QPolicy_::touch. */
  ghost function Touch(s: TwoQ, p: PageId): TwoQ {
    if p in s.hot then s.(hot := [p] + Remove(s.hot, p))
    else if s.recCap == 0 then s.(cold := Remove(s.cold, p), hot := [p] + s.hot)
    else s
  }

  ghost function Access(s: TwoQ, p: PageId): TwoQ
    requires p in Resident(s) || HasRoom(s) || HasVictim(s)
  {
    if p in Resident(s) then Touch(s, p) else Get(s, p)
  }

  /** Exactly when a full pool can give up a page; a pool of one frame that was never touched cannot. */
  lemma VictimExists(s: TwoQ)
    requires Inv(s) && !HasRoom(s)
    ensures HasVictim(s) <==> s.cap >= 2 || s.hot != []
  {
  }

  ghost function Start(c: nat, recCap: nat): TwoQ { TwoQ(c, [], [], recCap, []) }

  lemma StartKeepsInv(c: nat, recCap: nat)
    requires c >= 1
    ensures Inv(Start(c, recCap))
  {
  }

  /** With one frame the assertion in evict_one fails on the second distinct page. */
  lemma CapacityOneGetsStuck(recCap: nat, p: PageId)
    ensures var s := Access(Start(1, recCap), p); !HasRoom(s) && !HasVictim(s)
  {
  }

  lemma EvictKeepsInv(s: TwoQ)
    requires Inv(s) && !HasRoom(s) && HasVictim(s)
    ensures Inv(Evict(s)) && HasRoom(Evict(s)) && Victim(s) in Resident(s)
    ensures forall q :: q in Resident(Evict(s)) <==> q in Resident(s) && q != Victim(s)
    ensures |Resident(Evict(s))| == s.cap - 1
  {
    hide Distinct, LruSpec.Bump, Resident;
    LruSpec.BumpDistinct(s.recent, Victim(s), s.recCap);
    var k := EvictCuts(s);
    CutMembers(Resident(s), k);
  }

  lemma EvictCuts(s: TwoQ) returns (k: nat)
    requires HasVictim(s)
    ensures k < |Resident(s)| && Resident(Evict(s)) == Cut(Resident(s), k) && Resident(s)[k] == Victim(s)
  {
    hide LruSpec.Bump;
    k := if |s.cold| > ColdThres(s) then |s.cold| - 1 else |Resident(s)| - 1;
  }

  lemma TouchPages(s: TwoQ, p: PageId)
    requires p in Resident(s)
    ensures multiset(Resident(Touch(s, p))) == multiset(Resident(s))
  {
    hide Remove;
    MultisetRemove(s.cold, p);
    MultisetRemove(s.hot, p);
    assert multiset(Resident(s)) == multiset(s.cold) + multiset(s.hot);
    if p in s.hot {
      assert multiset([p] + Remove(s.hot, p)) == multiset(s.hot);
    } else {
      assert multiset([p] + s.hot) == multiset{p} + multiset(s.hot);
    }
  }

  lemma TouchKeepsInv(s: TwoQ, p: PageId)
    requires Inv(s) && p in Resident(s)
    ensures Inv(Touch(s, p))
    ensures |Resident(Touch(s, p))| == |Resident(s)|
    ensures forall q :: q in Resident(Touch(s, p)) <==> q in Resident(s)
  {
    TouchPages(s, p);
    assert forall q :: q in Resident(Touch(s, p)) <==> q in multiset(Resident(Touch(s, p)));
    DistinctAsMultiset(Resident(s));
    DistinctAsMultiset(Resident(Touch(s, p)));
    assert |multiset(Resident(Touch(s, p)))| == |Resident(Touch(s, p))|;
    hide Resident, Remove;
  }

  lemma EnterKeepsInv(s: TwoQ, p: PageId)
    requires Inv(s) && HasRoom(s) && p !in Resident(s)
    ensures Inv(Get(s, p)) && |Resident(Get(s, p))| == |Resident(s)| + 1
    ensures forall q :: q in Resident(Get(s, p)) <==> q == p || q in Resident(s)
  {
    hide Distinct;
    DistinctAsMultiset(Resident(s));
    DistinctAsMultiset(Resident(Get(s, p)));
    assert multiset(Resident(Get(s, p))) == multiset(Resident(s)) + multiset{p};
    assert forall q :: q in Resident(Get(s, p)) <==> q in multiset(Resident(Get(s, p)));
  }

  /** Every access keeps the invariant. */
  lemma AccessKeepsInv(s: TwoQ, p: PageId)
    requires Inv(s) && (p in Resident(s) || HasRoom(s) || HasVictim(s))
    ensures Inv(Access(s, p))
  {
    hide Inv, Evict;
    if p in Resident(s) {
      TouchKeepsInv(s, p);
    } else {
      if !HasRoom(s) {
        EvictKeepsInv(s);
      }
      EnterKeepsInv(WithRoom(s), p);
    }
  }

  /** The state after a trace on a fresh pool; the constructor's capacity must be at least two. */
  ghost function Run(c: nat, recCap: nat, t: seq<PageId>): (s: TwoQ)
    requires c >= 2
    ensures Inv(s) && s.cap == c && s.recCap == recCap
  {
    if t == [] then Start(c, recCap)
    else
      var s := Run(c, recCap, Init(t));
      assert HasRoom(s) || HasVictim(s) by { if !HasRoom(s) { VictimExists(s); } }
      AccessKeepsInv(s, Last(t));
      Access(s, Last(t))
  }

  // ----- The rules of an access, told from the lists alone -----

  /**
   * A miss in a full pool: cold gives up its oldest page when it is longer than a quarter of the pool,
   * rounded up, and hot does otherwise; every other page stays. The requested page heads one of the
   * lists, hot if the store then remembers it, and the page given up is the newest in the store.
   */
  lemma MissLaw(s: TwoQ, p: PageId)
    requires Inv(s) && p !in Resident(s) && |s.cold| + |s.hot| == s.cap && (s.cap >= 2 || s.hot != [])
    ensures HasVictim(s) && p !in Resident(s)
    ensures var s' := Access(s, p);
            if 4 * (|s.cold| - 1) >= s.cap
            then var rest := s.cold[..|s.cold| - 1];
                 && ((s'.cold == [p] + rest && s'.hot == s.hot) || (s'.cold == rest && s'.hot == [p] + s.hot))
                 && (s.recCap > 0 ==> s'.recent != [] && s'.recent[0] == s.cold[|s.cold| - 1])
            else s.hot != [] &&
                 var rest := s.hot[..|s.hot| - 1];
                 && ((s'.cold == [p] + s.cold && s'.hot == rest) || (s'.cold == s.cold && s'.hot == [p] + rest))
                 && (s.recCap > 0 ==> s'.recent != [] && s'.recent[0] == s.hot[|s.hot| - 1])
    ensures var s' := Access(s, p); p in s'.recent <==> s'.hot != [] && s'.hot[0] == p
  {
    hide Remove, Distinct, ColdThres;
    if !HasRoom(s) { VictimExists(s); }
  }

  /** A miss with a free frame takes no page away. */
  lemma FillLaw(s: TwoQ, p: PageId)
    requires p !in Resident(s) && |s.cold| + |s.hot| < s.cap
    ensures HasRoom(s)
    ensures var s' := Access(s, p);
            && s'.recent == s.recent
            && if p in s.recent then s'.cold == s.cold && s'.hot == [p] + s.hot
               else s'.cold == [p] + s.cold && s'.hot == s.hot
  {
  }

  /** A hit in hot moves its page to the front; one in cold promotes its page if there is no store. */
  lemma HitLaw(s: TwoQ, p: PageId)
    requires Inv(s) && p in Resident(s)
    ensures var s' := Access(s, p);
            && s'.recent == s.recent
            && if p in s.cold && s.recCap > 0 then s'.cold == s.cold && s'.hot == s.hot
               else s'.cold == Remove(s.cold, p) && s'.hot != [] && s'.hot[0] == p && s'.hot[1..] == Remove(s.hot, p)
  {
    hide Remove, Distinct;
    if p in s.cold {
      HotIsNotCold(s, p);
      RemoveAbsent(s.hot, p);
    } else {
      RemoveAbsent(s.cold, p);
    }
  }

  // ----- When the assertion in evict_one holds -----

  datatype Outcome = Failed | Reached(s: TwoQ)

  /** A run that ends at the first request whose eviction finds no victim. */
  ghost function Try(c: nat, recCap: nat, t: seq<PageId>): Outcome {
    if t == [] then Reached(Start(c, recCap))
    else
      var o := Try(c, recCap, Init(t));
      var p := Last(t);
      if o.Reached? && (p in Resident(o.s) || HasRoom(o.s) || HasVictim(o.s)) then Reached(Access(o.s, p)) else Failed
  }

  lemma {:induction false} NeverStuck(c: nat, recCap: nat, t: seq<PageId>)
    requires c >= 2
    ensures Try(c, recCap, t) == Reached(Run(c, recCap, t))
  {
    if t != [] {
      NeverStuck(c, recCap, Init(t));
      var s := Run(c, recCap, Init(t));
      if !HasRoom(s) { VictimExists(s); }
    }
  }

  /** Only one page is requested. */
  ghost predicate AllSame(t: seq<PageId>) {
    forall i :: 0 <= i < |t| ==> t[i] == t[0]
  }

  /** With a store, the page in the only frame never leaves the cold list. */
  lemma {:induction false} OneFrameWithStore(recCap: nat, t: seq<PageId>)
    requires recCap > 0
    ensures Try(1, recCap, t).Reached? <==> AllSame(t)
    ensures AllSame(t) && t != [] ==> Try(1, recCap, t).s == TwoQ(1, [t[0]], [], recCap, [])
  {
    if t != [] {
      OneFrameWithStore(recCap, Init(t));
      assert t == Init(t) + [Last(t)];
    }
  }

  /** Every page is requested again before the next one. */
  ghost predicate Repeated(t: seq<PageId>) {
    forall i :: 0 < i < |t| && t[i] != t[i - 1] ==> i > 1 && t[i - 2] == t[i - 1]
  }

  /** The only frame, without a store: hot once its page was requested again. */
  ghost function OneFrame(p: PageId, again: bool): TwoQ {
    if again then TwoQ(1, [], [p], 0, []) else TwoQ(1, [p], [], 0, [])
  }

  lemma OneFrameStep(p: PageId, again: bool, q: PageId)
    ensures var s := OneFrame(p, again);
            && (p in Resident(s) || HasRoom(s) || HasVictim(s)) && Access(s, p) == OneFrame(p, true)
            && (q != p ==> ((q in Resident(s) || HasRoom(s) || HasVictim(s)) <==> again))
            && (q != p && again ==> Access(s, q) == OneFrame(q, false))
  {
  }

  lemma RepeatedStep(t: seq<PageId>)
    requires |t| > 1
    ensures Repeated(t) <==> Repeated(Init(t)) && (Last(t) == Last(Init(t)) || (|t| > 2 && t[|t| - 3] == t[|t| - 2]))
  {
  }

  /** Without one, the page in the only frame is hot, and can be evicted, once it was requested twice in a row. */
  lemma {:induction false} OneFrameWithoutStore(t: seq<PageId>)
    ensures Try(1, 0, t).Reached? <==> Repeated(t)
    ensures Repeated(t) && t != [] ==>
              Try(1, 0, t).s == OneFrame(Last(t), |t| > 1 && t[|t| - 2] == Last(t))
  {
    if |t| > 1 {
      hide Repeated, Access, OneFrame, Resident, HasRoom, HasVictim;
      OneFrameWithoutStore(Init(t));
      RepeatedStep(t);
      OneFrameStep(Last(Init(t)), |t| > 2 && t[|t| - 3] == t[|t| - 2], Last(t));
    } else if |t| == 1 {
      OneFrameWithoutStore(Init(t));
    }
  }

  /** Exactly the traces on which a 2Q pool always finds a victim. */
  lemma SurvivesIff(c: nat, recCap: nat, t: seq<PageId>)
    requires c >= 1
    ensures Try(c, recCap, t).Reached? <==> c >= 2 || if recCap > 0 then AllSame(t) else Repeated(t)
  {
    if c >= 2 {
      NeverStuck(c, recCap, t);
    } else if recCap > 0 {
      OneFrameWithStore(recCap, t);
    } else {
      OneFrameWithoutStore(t);
    }
  }

  // ----- What the recency store remembers -----

  /** The pages a trace evicts, in order. */
  ghost function Evicted(c: nat, recCap: nat, t: seq<PageId>): seq<PageId>
    requires c >= 2
  {
    if t == [] then []
    else
      var s := Run(c, recCap, Init(t));
      if Last(t) in Resident(s) || HasRoom(s) then Evicted(c, recCap, Init(t))
      else
        VictimExists(s);
        Evicted(c, recCap, Init(t)) + [Victim(s)]
  }

  /** The store holds exactly the most recent distinct evicted pages. */
  lemma {:induction false} StoreHoldsRecentlyEvicted(c: nat, recCap: nat, t: seq<PageId>)
    requires c >= 2
    ensures Run(c, recCap, t).recent == Take(LruSpec.Recent(Evicted(c, recCap, t)), recCap)
  {
    if t != [] {
      var s := Run(c, recCap, Init(t));
      var e := Evicted(c, recCap, Init(t));
      StoreHoldsRecentlyEvicted(c, recCap, Init(t));
      if !(Last(t) in Resident(s) || HasRoom(s)) {
        VictimExists(s);
        assert Init(e + [Victim(s)]) == e;
        LruSpec.BumpOfTake(LruSpec.Recent(e), Victim(s), recCap);
      }
    }
  }

  /** A missed page enters hot iff it is recently evicted, counting the eviction this very miss causes. */
  lemma MissGoesHotIffRecentlyEvicted(c: nat, recCap: nat, t: seq<PageId>, p: PageId)
    requires c >= 2 && p !in Resident(Run(c, recCap, t))
    ensures p in Run(c, recCap, t + [p]).hot <==>
            p in Take(LruSpec.Recent(Evicted(c, recCap, t + [p])), recCap)
    ensures p in Run(c, recCap, t + [p]).cold <==>
            p !in Take(LruSpec.Recent(Evicted(c, recCap, t + [p])), recCap)
  {
    var s := Run(c, recCap, t);
    assert Init(t + [p]) == t && Last(t + [p]) == p;
    StoreHoldsRecentlyEvicted(c, recCap, t + [p]);
    if !HasRoom(s) {
      VictimExists(s);
      EvictKeepsInv(s);
    }
    assert p !in Resident(WithRoom(s));
  }

  // ----- Recency order -----

  /** s' is s without p, or with p moved or put in front, cut off somewhere. */
  ghost predicate Advances(s: seq<PageId>, s': seq<PageId>, p: PageId) {
    s' <= Remove(s, p) || s' <= [p] + Remove(s, p)
  }

  /** An access moves only its own page forward, and hot and cold lose pages only at their old ends. */
  lemma AccessAdvances(s: TwoQ, p: PageId)
    requires Inv(s) && (p in Resident(s) || HasRoom(s) || HasVictim(s))
    ensures Advances(s.hot, Access(s, p).hot, p)
    ensures s.recCap == 0 || p !in Resident(s) ==> Advances(s.cold, Access(s, p).cold, p)
    ensures s.recCap > 0 && p in Resident(s) ==> Access(s, p).cold == s.cold
  {
    hide Remove, Distinct, LruSpec.Bump, ColdThres;
    if p in s.cold { HotIsNotCold(s, p); }
    if p !in s.hot { RemoveAbsent(s.hot, p); }
    if p !in s.cold { RemoveAbsent(s.cold, p); }
  }

  lemma AdvancesDecreasing(s: seq<PageId>, s': seq<PageId>, p: PageId, rank: PageId -> int, rank': PageId -> int)
    requires Advances(s, s', p) && Decreasing(s, rank) && Distinct(s)
    requires forall q :: q in s && q != p ==> rank'(q) == rank(q) < rank'(p)
    ensures Decreasing(s', rank')
  {
    hide Remove, Decreasing, Distinct;
    LruSpec.DecreasingAfter(s, p, rank, rank');
    if s' <= Remove(s, p) {
      PrefixDecreasing(Remove(s, p), s', rank');
    } else {
      PrefixDecreasing([p] + Remove(s, p), s', rank');
    }
  }

  lemma PartsDistinct(s: TwoQ)
    requires Inv(s)
    ensures Distinct(s.cold) && Distinct(s.hot)
  {
    var r := Resident(s);
    assert r[..|s.cold|] == s.cold && r[|s.cold|..] == s.hot;
  }

  /** Hot lists its pages by decreasing last access. */
  lemma {:induction false} HotByLastAccess(c: nat, recCap: nat, t: seq<PageId>)
    requires c >= 2
    ensures Decreasing(Run(c, recCap, t).hot, LruSpec.Rank(t))
  {
    if t == [] {
      EmptyDecreasing(LruSpec.Rank(t));
    } else {
      hide Inv, Access, Advances, Decreasing, Distinct, LruSpec.Rank, HasRoom, HasVictim, Resident;
      var s, p := Run(c, recCap, Init(t)), Last(t);
      HotByLastAccess(c, recCap, Init(t));
      CanAccess(s);
      PartsDistinct(s);
      AccessAdvances(s, p);
      OthersRank(t);
      AdvancesDecreasing(s.hot, Access(s, p).hot, p, LruSpec.Rank(Init(t)), LruSpec.Rank(t));
    }
  }

  lemma OthersRank(t: seq<PageId>)
    requires t != []
    ensures forall q :: q != Last(t) ==> LruSpec.Rank(t)(q) == LruSpec.Rank(Init(t))(q) < LruSpec.Rank(t)(Last(t))
  {
    hide LruSpec.Rank;
    forall q: PageId | q != Last(t)
      ensures LruSpec.Rank(t)(q) == LruSpec.Rank(Init(t))(q) < LruSpec.Rank(t)(Last(t))
    {
      LruSpec.RankOfOther(t, q);
    }
  }

  lemma CanAccess(s: TwoQ)
    requires Inv(s) && s.cap >= 2
    ensures HasRoom(s) || HasVictim(s)
  {
    if !HasRoom(s) { VictimExists(s); }
  }

  /** Without a store, cold does too. */
  lemma {:induction false} ColdByLastAccess(c: nat, t: seq<PageId>)
    requires c >= 2
    ensures Decreasing(Run(c, 0, t).cold, LruSpec.Rank(t))
  {
    if t == [] {
      EmptyDecreasing(LruSpec.Rank(t));
    } else {
      hide Inv, Access, Advances, Decreasing, Distinct, LruSpec.Rank, HasRoom, HasVictim, Resident;
      var s, p := Run(c, 0, Init(t)), Last(t);
      ColdByLastAccess(c, Init(t));
      CanAccess(s);
      PartsDistinct(s);
      AccessAdvances(s, p);
      OthersRank(t);
      AdvancesDecreasing(s.cold, Access(s, p).cold, p, LruSpec.Rank(Init(t)), LruSpec.Rank(t));
    }
  }

  /** Index of the last access that brought p into the pool, or -1. */
  ghost function LastEntry(c: nat, recCap: nat, t: seq<PageId>, p: PageId): (i: int)
    requires c >= 2
    ensures -1 <= i < |t|
  {
    if t == [] then -1
    else if Last(t) == p && p !in Resident(Run(c, recCap, Init(t))) then |t| - 1
    else LastEntry(c, recCap, Init(t), p)
  }

  ghost function EntryRank(c: nat, recCap: nat, t: seq<PageId>): PageId -> int
    requires c >= 2
  {
    (p: PageId) => LastEntry(c, recCap, t, p)
  }

  /** With or without one, cold is a queue: its pages are listed by decreasing entry into the pool. */
  lemma {:induction false} ColdByLastEntry(c: nat, recCap: nat, t: seq<PageId>)
    requires c >= 2
    ensures Decreasing(Run(c, recCap, t).cold, EntryRank(c, recCap, t))
  {
    if t == [] {
      EmptyDecreasing(EntryRank(c, recCap, t));
    } else {
      hide Inv, Access, Advances, Decreasing, Distinct, HasRoom, HasVictim, Resident;
      var s, p := Run(c, recCap, Init(t)), Last(t);
      var rank, rank' := EntryRank(c, recCap, Init(t)), EntryRank(c, recCap, t);
      ColdByLastEntry(c, recCap, Init(t));
      CanAccess(s);
      PartsDistinct(s);
      AccessAdvances(s, p);
      if p in Resident(s) {
        SameRanks(s.cold, rank, rank');
        if recCap == 0 { TouchedCold(s, p, rank'); }
      } else {
        AdvancesDecreasing(s.cold, Access(s, p).cold, p, rank, rank');
      }
    }
  }

  lemma SameRanks(s: seq<PageId>, rank: PageId -> int, rank': PageId -> int)
    requires Decreasing(s, rank) && forall q :: rank'(q) == rank(q)
    ensures Decreasing(s, rank')
  {
  }

  /** A touch takes at most its own page out of cold. */
  lemma TouchedCold(s: TwoQ, p: PageId, rank: PageId -> int)
    requires p in Resident(s) && Decreasing(s.cold, rank)
    ensures Decreasing(Access(s, p).cold, rank)
  {
    hide Remove, Decreasing;
    RemoveDecreasing(s.cold, p, rank);
  }

  // ----- Scan resistance -----

  ghost function RunFrom(s: TwoQ, u: seq<PageId>): (s': TwoQ)
    requires Inv(s) && s.cap >= 2
    ensures Inv(s') && s'.cap == s.cap
    decreases |u|
  {
    if u == [] then s
    else
      assert HasRoom(s) || HasVictim(s) by { if !HasRoom(s) { VictimExists(s); } }
      AccessKeepsInv(s, u[0]);
      RunFrom(Access(s, u[0]), u[1..])
  }

  lemma {:induction false} RunAppend(c: nat, recCap: nat, t: seq<PageId>, u: seq<PageId>)
    requires c >= 2
    ensures Run(c, recCap, t + u) == RunFrom(Run(c, recCap, t), u)
    decreases |u|
  {
    if u == [] {
      assert t + u == t;
    } else {
      assert Init(t + [u[0]]) == t && Last(t + [u[0]]) == u[0];
      assert t + u == (t + [u[0]]) + u[1..];
      RunAppend(c, recCap, t + [u[0]], u[1..]);
    }
  }

  /** Neither resident nor remembered. */
  ghost predicate IsNew(s: TwoQ, p: PageId) {
    p !in Resident(s) && p !in s.recent
  }

  /** A new page goes to cold; hot pays with its oldest page only while cold is at most the threshold. */
  lemma NewPageStep(s: TwoQ, p: PageId)
    requires Inv(s) && IsNew(s, p) && (HasRoom(s) || HasVictim(s))
    ensures var s' := Access(s, p);
            || (s'.hot == s.hot && |s'.cold| >= |s.cold|)
            || (s.hot != [] && s'.hot == Init(s.hot) && |s.cold| <= ColdThres(s) && |s'.cold| == |s.cold| + 1)
  {
    if !HasRoom(s) {
      LruSpec.BumpDistinct(s.recent, Victim(s), s.recCap);
      EvictKeepsInv(s);
    }
  }

  lemma StaysNew(s: TwoQ, p: PageId, q: PageId)
    requires Inv(s) && (p in Resident(s) || HasRoom(s) || HasVictim(s))
    requires q != p && IsNew(s, q)
    ensures IsNew(Access(s, p), q)
  {
    if p in Resident(s) {
      TouchPages(s, p);
      assert multiset(Resident(Touch(s, p)))[q] == multiset(Resident(s))[q] == 0;
    } else if !HasRoom(s) {
      EvictKeepsInv(s);
      LruSpec.BumpDistinct(s.recent, Victim(s), s.recCap);
    }
  }

  /** Pages never requested are new. */
  lemma {:induction false} UnrequestedIsNew(c: nat, recCap: nat, t: seq<PageId>, q: PageId)
    requires c >= 2 && q !in t
    ensures IsNew(Run(c, recCap, t), q)
  {
    if t != [] {
      var s := Run(c, recCap, Init(t));
      UnrequestedIsNew(c, recCap, Init(t), q);
      if !HasRoom(s) { VictimExists(s); }
      StaysNew(s, Last(t), q);
    }
  }

  lemma {:induction false} ScanBoundFrom(s: TwoQ, u: seq<PageId>)
    requires Inv(s) && s.cap >= 2
    requires Distinct(u) && forall p :: p in u ==> IsNew(s, p)
    ensures var s' := RunFrom(s, u);
            && s'.hot <= s.hot
            && |s.hot| - |s'.hot| <= if |s.cold| <= ColdThres(s) then ColdThres(s) + 1 - |s.cold| else 0
    decreases |u|
  {
    if u != [] {
      if !HasRoom(s) { VictimExists(s); }
      var s1 := Access(s, u[0]);
      NewPageStep(s, u[0]);
      AccessKeepsInv(s, u[0]);
      hide Access, Inv, IsNew;
      forall p | p in u[1..]
        ensures IsNew(s1, p)
      {
        StaysNew(s, u[0], p);
      }
      ScanBoundFrom(s1, u[1..]);
    }
  }

  /** However long a run of new pages, hot loses at most max(0, threshold + 1 - |cold|) pages, oldest first. */
  lemma ScanBound(c: nat, recCap: nat, t: seq<PageId>, u: seq<PageId>)
    requires c >= 2
    requires Distinct(u) && forall p :: p in u ==> p !in t
    ensures var s, s' := Run(c, recCap, t), Run(c, recCap, t + u);
            && s'.hot <= s.hot
            && |s.hot| - |s'.hot| <= if |s.cold| <= ColdThres(s) then ColdThres(s) + 1 - |s.cold| else 0
  {
    RunAppend(c, recCap, t, u);
    forall p | p in u
      ensures IsNew(Run(c, recCap, t), p)
    {
      UnrequestedIsNew(c, recCap, t, p);
    }
    ScanBoundFrom(Run(c, recCap, t), u);
  }

  /** With a store, cold never falls back below the threshold once it has reached it. */
  lemma {:induction false} ColdNeverFallsBack(s: TwoQ, u: seq<PageId>)
    requires Inv(s) && s.cap >= 2 && s.recCap > 0 && |s.cold| >= ColdThres(s)
    ensures |RunFrom(s, u).cold| >= ColdThres(s)
    decreases |u|
  {
    if u != [] {
      if !HasRoom(s) { VictimExists(s); }
      AccessKeepsInv(s, u[0]);
      ColdStep(s, u[0]);
      ColdNeverFallsBack(Access(s, u[0]), u[1..]);
    }
  }

  /** One access keeps cold at or above the threshold unless it promotes a page out of a cold list at the threshold. */
  lemma ColdStep(s: TwoQ, p: PageId)
    requires Inv(s) && (p in Resident(s) || HasRoom(s) || HasVictim(s)) && |s.cold| >= ColdThres(s)
    ensures |Access(s, p).cold| >= ColdThres(s) <==> s.recCap > 0 || p !in s.cold || |s.cold| > ColdThres(s)
  {
    RemoveSize(s.cold, p);
    if p in s.cold {
      HotIsNotCold(s, p);
    } else if p in s.hot {
      RemoveAbsent(s.cold, p);
    }
  }

  lemma HotIsNotCold(s: TwoQ, p: PageId)
    requires Inv(s) && p in s.cold
    ensures p !in s.hot
  {
    var r, i := Resident(s), IndexOf(s.cold, p);
    assert r[i] == p && forall j :: 0 <= j < |s.hot| ==> s.hot[j] == r[|s.cold| + j] != r[i];
  }

  /** Without a store, touching each cold page once leaves cold empty. */
  lemma {:induction false} Drains(s: TwoQ)
    requires Inv(s) && s.cap >= 2 && s.recCap == 0
    ensures RunFrom(s, s.cold).cold == []
    decreases |s.cold|
  {
    if s.cold != [] {
      var p := s.cold[0];
      HotIsNotCold(s, p);
      AccessKeepsInv(s, p);
      assert Access(s, p).cold == s.cold[1..];
      Drains(Access(s, p));
    }
  }

  /** Exactly the pools whose cold list, once at the threshold, no continuation brings below it. */
  lemma ColdStaysIff(s: TwoQ)
    requires Inv(s) && s.cap >= 2 && |s.cold| >= ColdThres(s)
    ensures s.recCap > 0 <==> forall u :: |RunFrom(s, u).cold| >= ColdThres(s)
  {
    if s.recCap > 0 {
      forall u
        ensures |RunFrom(s, u).cold| >= ColdThres(s)
      {
        ColdNeverFallsBack(s, u);
      }
    } else {
      Drains(s);
    }
  }

  /** For instance, both pages of a filled pool of two move to hot. */
  lemma ColdDrainsWithoutStore(p: PageId, q: PageId)
    requires p != q
    ensures Access(Access(Start(2, 0), p), q) == TwoQ(2, [q, p], [], 0, [])
    ensures Access(Access(TwoQ(2, [q, p], [], 0, []), p), q).cold == []
  {
    assert Access(Start(2, 0), p).cold == [p];
    assert Remove([q, p], p) == [q] by { RemoveAt([q, p], 1); }
    assert Access(TwoQ(2, [q, p], [], 0, []), p) == TwoQ(2, [q], [p], 0, []);
    RemoveAt([q], 0);
  }
}
