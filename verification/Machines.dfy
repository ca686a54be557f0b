/** The four policies behind the interface of include/eviction_policy.hh, as pure machines. */
module Machines {
  import opened Sequences
  import opened Pages
  import LruSpec
  import TwoQSpec
  import LruKSpec
  import ArcSpec

  datatype Machine =
    | Lru(cap: nat, pages: seq<PageId>)
    | TwoQ(twoQ: TwoQSpec.TwoQ)
    | LruK(lruK: LruKSpec.LruK)
    | Arc(arc: ArcSpec.Arc)

  ghost function Cap(m: Machine): nat {
    match m
    case Lru(cap, _) => cap
    case TwoQ(s) => s.cap
    case LruK(s) => s.cap
    case Arc(s) => s.cap
  }

  ghost function Resident(m: Machine): set<PageId> {
    match m
    case Lru(_, pages) => Elems(pages)
    case TwoQ(s) => Elems(TwoQSpec.Resident(s))
    case LruK(s) => s.res.Keys
    case Arc(s) => Elems(ArcSpec.Resident(s))
  }

  /** A 2Q pool needs two frames; see TwoQSpec.CapacityOneGetsStuck. */
  ghost predicate Inv(m: Machine) {
    match m
    case Lru(cap, pages) => cap >= 1 && Distinct(pages) && |pages| <= cap
    case TwoQ(s) => TwoQSpec.Inv(s) && s.cap >= 2
    case LruK(s) => LruKSpec.Inv(s)
    case Arc(s) => ArcSpec.Inv(s)
  }

  ghost predicate HasRoom(m: Machine) {
    |Resident(m)| < Cap(m)
  }

  lemma TwoQCanAccess(s: TwoQSpec.TwoQ)
    requires TwoQSpec.Inv(s) && s.cap >= 2
    ensures TwoQSpec.HasRoom(s) || TwoQSpec.HasVictim(s)
  {
  }

  /** One request for page p. */
  ghost function Access(m: Machine, p: PageId): Machine
    requires Inv(m)
  {
    match m
    case Lru(cap, pages) => Lru(cap, LruSpec.Bump(pages, p, cap))
    case TwoQ(s) =>
      TwoQCanAccess(s);
      TwoQ(TwoQSpec.Access(s, p))
    case LruK(s) => LruK(LruKSpec.Access(s, p))
    case Arc(s) => Arc(ArcSpec.Access(s, p))
  }

  /** r' is r after a request for p on a pool of cap frames. */
  ghost predicate Requested(r: set<PageId>, r': set<PageId>, p: PageId, cap: nat) {
    if p in r then r' == r
    else p in r' && r' <= r + {p} && |r'| == if |r| < cap then |r| + 1 else cap
  }

  lemma RequestedWithRoom(r: set<PageId>, r': set<PageId>, p: PageId, cap: nat)
    requires Requested(r, r', p, cap) && |r| < cap
    ensures r' == r + {p}
  {
    if p !in r && r' != r + {p} {
      var q :| q in r + {p} && q !in r';
      SubsetSize(r', r + {p} - {q});
    }
  }

  lemma SequenceRequested(s: seq<PageId>, s': seq<PageId>, p: PageId, cap: nat)
    requires Distinct(s) && Distinct(s')
    requires p in s ==> forall q :: q in s' <==> q in s
    requires p !in s ==> p in s' && |s'| == if |s| < cap then |s| + 1 else cap
    requires forall q :: q in s' ==> q == p || q in s
    ensures Requested(Elems(s), Elems(s'), p, cap)
  {
    DistinctSize(s);
    DistinctSize(s');
  }

  lemma LruStep(cap: nat, s: seq<PageId>, p: PageId)
    requires cap >= 1 && Distinct(s) && |s| <= cap
    ensures var s' := LruSpec.Bump(s, p, cap);
            Distinct(s') && |s'| <= cap && Requested(Elems(s), Elems(s'), p, cap)
  {
    RemoveDistinct(s, p);
    var moved := [p] + Remove(s, p);
    hide Remove;
    assert Distinct(moved) && forall q :: q in moved <==> q == p || q in s;
    assert Distinct(Take(moved, cap)) && forall q :: q in Take(moved, cap) ==> q in moved;
    assert p in s ==> Take(moved, cap) == moved;
    assert Take(moved, cap)[0] == p;
    SequenceRequested(s, LruSpec.Bump(s, p, cap), p, cap);
  }

  lemma TwoQStep(s: TwoQSpec.TwoQ, p: PageId)
    requires TwoQSpec.Inv(s) && s.cap >= 2 && (TwoQSpec.HasRoom(s) || TwoQSpec.HasVictim(s))
    ensures var s' := TwoQSpec.Access(s, p);
            Requested(Elems(TwoQSpec.Resident(s)), Elems(TwoQSpec.Resident(s')), p, s.cap) && s'.cap == s.cap
  {
    TwoQSpec.AccessKeepsInv(s, p);
    hide Requested;
    if p in TwoQSpec.Resident(s) {
      TwoQSpec.TouchKeepsInv(s, p);
    } else {
      if !TwoQSpec.HasRoom(s) { TwoQSpec.EvictKeepsInv(s); }
      TwoQSpec.EnterKeepsInv(TwoQSpec.WithRoom(s), p);
    }
    SequenceRequested(TwoQSpec.Resident(s), TwoQSpec.Resident(TwoQSpec.Access(s, p)), p, s.cap);
  }

  lemma RequestedAfterRoom(r: set<PageId>, r1: set<PageId>, p: PageId, cap: nat)
    requires p !in r && r1 <= r && |r| <= cap && |r1| == if |r| < cap then |r| else cap - 1
    ensures Requested(r, r1 + {p}, p, cap)
  {
  }

  lemma LruKRoom(s: LruKSpec.LruK)
    requires LruKSpec.Inv(s)
    ensures |s.res| == |s.res.Keys| <= s.cap && (LruKSpec.HasRoom(s) || s.res != map[])
    ensures var s1 := LruKSpec.WithRoom(s);
            |s1.res| == |s1.res.Keys| == if |s.res| < s.cap then |s.res| else s.cap - 1
  {
  }

  lemma LruKMiss(s: LruKSpec.LruK, p: PageId)
    requires LruKSpec.Inv(s) && p !in s.res
    ensures Requested(s.res.Keys, LruKSpec.Get(s, p).res.Keys, p, s.cap)
  {
    hide LruKSpec.Inv, LruKSpec.InvExcept, LruKSpec.Touch, LruKSpec.WithRoom, LruKSpec.Admit, Requested, Remove;
    LruKRoom(s);
    LruKSpec.WithRoomKeepsInv(s);
    var s1 := LruKSpec.WithRoom(s);
    LruKSpec.AdmitKeepsInv(s1, p);
    LruKSpec.TouchKeepsInv(LruKSpec.Admit(s1, p), p);
    LruKSpec.AdmitKeys(s1, p);
    RequestedAfterRoom(s.res.Keys, s1.res.Keys, p, s.cap);
  }

  lemma LruKStep(s: LruKSpec.LruK, p: PageId)
    requires LruKSpec.Inv(s)
    ensures var s' := LruKSpec.Access(s, p);
            Requested(s.res.Keys, s'.res.Keys, p, s.cap) && s'.cap == s.cap
  {
    hide LruKSpec.Inv, LruKSpec.InvExcept, LruKSpec.Get, LruKSpec.Touch;
    LruKSpec.AccessKeepsParameters(s, p);
    if p in s.res {
      LruKSpec.InvIsInvExcept(s, p);
      LruKSpec.TouchKeepsInv(s, p);
    } else {
      LruKMiss(s, p);
    }
  }

  /** Only p becomes resident. */
  lemma ArcMiss(s: ArcSpec.Arc, p: PageId)
    requires ArcSpec.Inv(s) && p !in ArcSpec.Resident(s)
    ensures var r := ArcSpec.Resident(ArcSpec.Get(s, p));
            p in r && forall q :: q in r ==> q == p || q in ArcSpec.Resident(s)
  {
    hide Distinct, ArcSpec.Prepared, ArcSpec.Delta, ArcSpec.TakesCold;
    ArcSpec.PreparedSizes(s, p);
  }

  lemma SamePages(s: seq<PageId>, s': seq<PageId>)
    requires multiset(s) == multiset(s')
    ensures forall q :: q in s <==> q in s'
  {
    assert forall q :: q in s <==> q in multiset(s);
    assert forall q :: q in s' <==> q in multiset(s');
  }

  lemma ResidentDistinct(s: ArcSpec.Arc)
    requires ArcSpec.Inv(s)
    ensures Distinct(ArcSpec.Resident(s)) && |ArcSpec.Resident(s)| <= s.cap
  {
    var r := ArcSpec.Resident(s);
    assert r == ArcSpec.Directory(s)[..|r|];
  }

  lemma ArcStep(s: ArcSpec.Arc, p: PageId)
    requires ArcSpec.Inv(s)
    ensures var s' := ArcSpec.Access(s, p);
            Requested(Elems(ArcSpec.Resident(s)), Elems(ArcSpec.Resident(s')), p, s.cap) && s'.cap == s.cap
  {
    hide ArcSpec.Inv, Requested, ArcSpec.Get, ArcSpec.Resident, Distinct, Remove;
    ArcSpec.AccessKeepsInv(s, p);
    ResidentDistinct(s);
    ResidentDistinct(ArcSpec.Access(s, p));
    if p in ArcSpec.Resident(s) {
      ArcSpec.TouchKeepsInv(s, p);
      SamePages(ArcSpec.Resident(ArcSpec.Touch(s, p)), ArcSpec.Resident(s));
    } else {
      ArcSpec.GetSizes(s, p);
      ArcMiss(s, p);
    }
    SequenceRequested(ArcSpec.Resident(s), ArcSpec.Resident(ArcSpec.Access(s, p)), p, s.cap);
  }

  /** Every policy keeps its invariant, serves the page, and evicts exactly one page exactly when full. */
  lemma AccessStep(m: Machine, p: PageId)
    requires Inv(m)
    ensures Inv(Access(m, p)) && Cap(Access(m, p)) == Cap(m) && |Resident(m)| <= Cap(m)
    ensures Requested(Resident(m), Resident(Access(m, p)), p, Cap(m))
  {
    hide Requested, Distinct, TwoQSpec.Access, LruKSpec.Access, ArcSpec.Access, LruSpec.Bump, Elems;
    match m {
      case Lru(cap, pages) =>
        DistinctSize(pages);
        LruStep(cap, pages, p);
      case TwoQ(s) =>
        DistinctSize(TwoQSpec.Resident(s));
        TwoQCanAccess(s);
        TwoQSpec.AccessKeepsInv(s, p);
        TwoQStep(s, p);
      case LruK(s) =>
        LruKSpec.AccessKeepsInv(s, p);
        LruKStep(s, p);
      case Arc(s) =>
        ResidentDistinct(s);
        DistinctSize(ArcSpec.Resident(s));
        ArcSpec.AccessKeepsInv(s, p);
        ArcStep(s, p);
    }
  }
}
