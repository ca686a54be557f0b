/** The template parameter of BufPool: one of the policies, behind the interface of include/eviction_policy.hh. */
module Policies {
  import opened Pages
  import opened Sequences
  import opened Lists
  import opened Placement
  import opened LruPolicies
  import opened TwoQPolicies
  import opened LruKPolicies
  import opened ArcPolicies
  import opened Queues
  import LruSpec
  import TwoQSpec
  import LruKSpec
  import ArcSpec
  import Machines

  /** Which policy, and its own constructor arguments; without a store, the null stores are used. */
  datatype Kind =
    | LruKind
    | TwoQKind(useStore: bool, recencyCap: nat)
    | LruKKind(k: nat, grace: nat, useStore: bool, recencyCap: nat)
    | ArcKind

  ghost predicate Constructible(kind: Kind, c: nat) {
    && c >= 1
    && (kind.TwoQKind? ==> c >= 2 && (kind.useStore ==> kind.recencyCap > 0))
    && (kind.LruKKind? ==> kind.k >= 2 && (kind.useStore ==> kind.recencyCap > 0))
  }

  /** The machine of a new pool of c frames. */
  ghost function Start(kind: Kind, c: nat): (m: Machines.Machine)
    ensures Machines.Cap(m) == c && Machines.Resident(m) == {}
    ensures m.Arc? ==> ArcSpec.History(m.arc) == [] && c <= 4 * m.arc.thres < c + 4
  {
    match kind
    case LruKind => Machines.Lru(c, [])
    case TwoQKind(useStore, r) => Machines.TwoQ(TwoQSpec.Start(c, if useStore then r else 0))
    case LruKKind(k, grace, useStore, r) => Machines.LruK(LruKSpec.Start(k, c, grace, if useStore then r else 0))
    case ArcKind => Machines.Arc(ArcSpec.Arc(c, [], [], [], [], (c + 3) / 4))
  }

  datatype Policy =
    | Lru(lru: LruPolicy)
    | TwoQ(twoQ: TwoQPolicy)
    | LruK(lruK: LruKPolicy)
    | Arc(arc: ArcPolicy)

  ghost function Objects(pol: Policy): set<object> {
    match pol
    case Lru(l) => {l, l.freeList, l.lruList}
    case TwoQ(q) => {q} + q.Objects()
    case LruK(l) => l.Objects()
    case Arc(a) => {a} + a.Objects()
  }

  lemma NodesApart(pol: Policy)
    ensures forall n: ListNode :: n !in Objects(pol)
  {
  }

  ghost function Cells(pol: Policy): set<ListNode>
    reads Objects(pol)
  {
    match pol
    case Lru(l) => l.Cells()
    case TwoQ(q) => q.Cells()
    case LruK(l) => l.Cells()
    case Arc(a) => a.Cells()
  }

  /** Which frame holds which page. */
  ghost function At(pol: Policy): Placing
    reads Objects(pol)
  {
    match pol
    case Lru(l) => l.at
    case TwoQ(q) => q.frames.at
    case LruK(l) => l.at
    case Arc(a) => a.frames.at
  }

  ghost function Free(pol: Policy): seq<ListNode>
    reads Objects(pol)
  {
    match pol
    case Lru(l) => l.freeList.nodes
    case TwoQ(q) => q.frames.freeList.nodes
    case LruK(l) => l.freeList.nodes
    case Arc(a) => a.frames.freeList.nodes
  }

  ghost function Model(pol: Policy): Machines.Machine
    reads Objects(pol)
  {
    match pol
    case Lru(l) => Machines.Lru(l.totalCap, l.abs)
    case TwoQ(q) => Machines.TwoQ(q.Abs())
    case LruK(l) => Machines.LruK(l.Abs())
    case Arc(a) => Machines.Arc(a.Abs())
  }

  ghost predicate Valid(pol: Policy)
    reads Objects(pol)
    reads Cells(pol)`prev, Cells(pol)`next, Cells(pol)`home, Cells(pol)`state
    reads Cells(pol)`pageId, Cells(pol)`lastAccess, Cells(pol)`heapId
  {
    match pol
    case Lru(l) => l.Valid() && l.totalCap >= 1
    case TwoQ(q) => q.Valid() && q.totalCap >= 2
    case LruK(l) => l.Valid()
    case Arc(a) => a.Valid()
  }

  /** Every frame has been registered. */
  ghost predicate Ready(pol: Policy)
    reads Objects(pol)
  {
    |Free(pol)| + |Machines.Resident(Model(pol))| == Machines.Cap(Model(pol))
  }

  /** The placed pages are the resident ones, in different frames. */
  lemma PlacedAreResident(pol: Policy)
    requires Valid(pol)
    ensures Machines.Inv(Model(pol)) && Injective(At(pol)) && At(pol).Keys == Machines.Resident(Model(pol))
  {
  }

  /** Each policy that keeps page numbers of its own has the right one in every frame in use. */
  lemma PageIdAgrees(pol: Policy, p: PageId)
    requires Valid(pol) && !pol.Lru? && p in At(pol)
    ensures At(pol)[p].pageId == p
  {
    hide Queues.Valid, LruKPolicy.Valid;
    match pol {
      case TwoQ(q) => q.frames.TagOf(p);
      case LruK(l) => l.FrameOf(p);
      case Arc(a) => a.frames.TagOf(p);
    }
  }

  /** Ready is what each policy calls so. */
  lemma ReadyAgrees(pol: Policy)
    requires Valid(pol)
    ensures match pol
            case Lru(l) => (Ready(pol) <==> l.Ready()) && |l.freeList.nodes| + |l.abs| <= l.totalCap
            case TwoQ(q) => Ready(pol) <==> q.Ready()
            case LruK(l) => Ready(pol) <==> l.Ready()
            case Arc(a) => Ready(pol) <==> a.Ready()
  {
    hide List.Valid, Queues.Valid, ArcSpec.Inv, TwoQSpec.Inv, LruKPolicy.Framed, LruKPolicy.StoreValid;
    match pol {
      case Lru(l) => DistinctSize(l.abs);
      case TwoQ(q) =>
        q.frames.PlacedOnce();
        DistinctSize(TwoQSpec.Resident(q.Abs()));
      case LruK(l) =>
        l.KnownKeys();
        assert |l.res.Keys| == |l.res|;
      case Arc(a) =>
        a.frames.PlacedOnce();
        DistinctSize(ArcSpec.Resident(a.Abs()));
    }
  }

  method New(kind: Kind, c: nat) returns (pol: Policy)
    requires Constructible(kind, c)
    ensures Valid(pol) && Model(pol) == Start(kind, c) && At(pol) == map[] && Free(pol) == []
    ensures fresh(Objects(pol)) && fresh(Cells(pol))
  {
    hide LruPolicy.Valid, TwoQPolicy.Valid, LruKPolicy.Valid, ArcPolicy.Valid, LruPolicy.Cells, TwoQPolicy.Cells;
    match kind
    case LruKind =>
      var l := new LruPolicy(c);
      pol := Lru(l);
    case TwoQKind(useStore, r) =>
      var q := new TwoQPolicy(c, useStore, r);
      pol := TwoQ(q);
    case LruKKind(k, grace, useStore, r) =>
      var l := new LruKPolicy(k, c, grace, useStore, r);
      pol := LruK(l);
    case ArcKind =>
      var a := new ArcPolicy(c);
      pol := Arc(a);
  }

  /** register_metadata */
  method Register(pol: Policy, n: ListNode)
    requires Valid(pol) && !Ready(pol) && n.Detached() && n !in Cells(pol)
    modifies Objects(pol), Cells(pol)`prev, Cells(pol)`next, n`prev, n`next, n`home, n`lastAccess
    ensures Valid(pol) && Model(pol) == old(Model(pol)) && At(pol) == old(At(pol))
    ensures Free(pol) == [n] + old(Free(pol)) && Cells(pol) == old(Cells(pol)) + {n}
  {
    hide LruPolicy.Valid, TwoQPolicy.Valid, LruKPolicy.Valid, ArcPolicy.Valid;
    ReadyAgrees(pol);
    match pol
    case Lru(l) => l.RegisterMetadata(n);
    case TwoQ(q) => q.RegisterMetadata(n);
    case LruK(l) => l.RegisterMetadata(n);
    case Arc(a) => a.RegisterMetadata(n);
  }

  /** A page is resident in the machine exactly when it is placed. */
  lemma Residents(pol: Policy, p: PageId)
    requires Valid(pol)
    ensures p in At(pol) <==> p in Machines.Resident(Model(pol))
    ensures Machines.Inv(Model(pol))
  {
    PlacedAreResident(pol);
    hide Valid;
  }

  method GetLru(l: LruPolicy, p: PageId) returns (res: ListNode, evicted: ListNode?, ghost victim: PageId)
    requires Valid(Lru(l)) && Ready(Lru(l)) && p !in At(Lru(l))
    modifies Objects(Lru(l)), Cells(Lru(l))`prev, Cells(Lru(l))`next, Cells(Lru(l))`home
    ensures Valid(Lru(l)) && Ready(Lru(l))
    ensures Machines.Inv(old(Model(Lru(l)))) && Model(Lru(l)) == Machines.Access(old(Model(Lru(l))), p)
    ensures Placed(old(At(Lru(l))), At(Lru(l)), p, res, evicted, victim)
    ensures evicted != null <==> !Machines.HasRoom(old(Model(Lru(l))))
    ensures TakesFree(old(Free(Lru(l))), Free(Lru(l)), res) && Cells(Lru(l)) == old(Cells(Lru(l)))
  {
    hide LruPolicy.Valid, LruPolicy.Cells, Placed, LruSpec.Bump, TakesFree;
    Residents(Lru(l), p);
    ReadyAgrees(Lru(l));
    victim := if l.abs == [] then p else Last(l.abs);
    res, evicted := l.Get(p);
    ReadyAgrees(Lru(l));
  }

  method GetTwoQ(q: TwoQPolicy, p: PageId) returns (res: ListNode, evicted: ListNode?, ghost victim: PageId)
    requires var pol := TwoQ(q); Valid(pol) && Ready(pol) && p !in At(pol) && p != INVALID_ID
    modifies Objects(TwoQ(q)), Cells(TwoQ(q))`prev, Cells(TwoQ(q))`next, Cells(TwoQ(q))`home
    modifies Cells(TwoQ(q))`state, Cells(TwoQ(q))`pageId
    ensures Valid(TwoQ(q)) && Ready(TwoQ(q))
    ensures Machines.Inv(old(Model(TwoQ(q)))) && Model(TwoQ(q)) == Machines.Access(old(Model(TwoQ(q))), p)
    ensures Placed(old(At(TwoQ(q))), At(TwoQ(q)), p, res, evicted, victim)
    ensures evicted != null <==> !Machines.HasRoom(old(Model(TwoQ(q))))
    ensures TakesFree(old(Free(TwoQ(q))), Free(TwoQ(q)), res) && Cells(TwoQ(q)) == old(Cells(TwoQ(q)))
  {
    hide TwoQPolicy.Valid, TwoQSpec.Get, TwoQSpec.HasVictim, Placed, TakesFree;
    Residents(TwoQ(q), p);
    ReadyAgrees(TwoQ(q));
    Machines.TwoQCanAccess(q.Abs());
    DistinctSize(TwoQSpec.Resident(q.Abs()));
    res, evicted, victim := q.Get(p);
    ReadyAgrees(TwoQ(q));
  }

  method GetLruK(l: LruKPolicy, p: PageId) returns (res: ListNode, evicted: ListNode?, ghost victim: PageId)
    requires var pol := LruK(l); Valid(pol) && Ready(pol) && p !in At(pol) && p != INVALID_ID
    modifies Objects(LruK(l)), Cells(LruK(l))`prev, Cells(LruK(l))`next, Cells(LruK(l))`home
    modifies Cells(LruK(l))`pageId, Cells(LruK(l))`heapId, Cells(LruK(l))`lastAccess
    ensures Valid(LruK(l)) && Ready(LruK(l))
    ensures Machines.Inv(old(Model(LruK(l)))) && Model(LruK(l)) == Machines.Access(old(Model(LruK(l))), p)
    ensures Placed(old(At(LruK(l))), At(LruK(l)), p, res, evicted, victim)
    ensures evicted != null <==> !Machines.HasRoom(old(Model(LruK(l))))
    ensures TakesFree(old(Free(LruK(l))), Free(LruK(l)), res) && Cells(LruK(l)) == old(Cells(LruK(l)))
  {
    hide LruKPolicy.Valid, LruKSpec.Get, LruKSpec.Inv, Placed, TakesFree;
    Residents(LruK(l), p);
    ReadyAgrees(LruK(l));
    assert |l.res.Keys| == |l.res|;
    res, evicted, victim := l.Get(p);
    ReadyAgrees(LruK(l));
  }

  method GetArc(a: ArcPolicy, p: PageId) returns (res: ListNode, evicted: ListNode?, ghost victim: PageId)
    requires var pol := Arc(a); Valid(pol) && Ready(pol) && p !in At(pol)
    modifies Objects(Arc(a)), Cells(Arc(a))`prev, Cells(Arc(a))`next, Cells(Arc(a))`home
    modifies Cells(Arc(a))`state, Cells(Arc(a))`pageId
    ensures Valid(Arc(a)) && Ready(Arc(a))
    ensures Machines.Inv(old(Model(Arc(a)))) && Model(Arc(a)) == Machines.Access(old(Model(Arc(a))), p)
    ensures Placed(old(At(Arc(a))), At(Arc(a)), p, res, evicted, victim)
    ensures evicted != null <==> !Machines.HasRoom(old(Model(Arc(a))))
    ensures TakesFree(old(Free(Arc(a))), Free(Arc(a)), res) && Cells(Arc(a)) == old(Cells(Arc(a)))
  {
    hide ArcPolicy.Valid, ArcSpec.Get, ArcSpec.Inv, Placed, TakesFree;
    Residents(Arc(a), p);
    ReadyAgrees(Arc(a));
    Machines.ResidentDistinct(a.Abs());
    DistinctSize(ArcSpec.Resident(a.Abs()));
    res, evicted, victim := a.Get(p);
    ReadyAgrees(Arc(a));
  }

  /** get of a page that is not resident; evicted is the frame handed to the callback, if it was called. */
  method Get(pol: Policy, p: PageId) returns (res: ListNode, evicted: ListNode?, ghost victim: PageId)
    requires Valid(pol) && Ready(pol) && p !in At(pol) && p != INVALID_ID
    modifies Objects(pol), Cells(pol)`prev, Cells(pol)`next, Cells(pol)`home, Cells(pol)`state
    modifies Cells(pol)`pageId, Cells(pol)`lastAccess, Cells(pol)`heapId
    ensures Valid(pol) && Ready(pol)
    ensures Machines.Inv(old(Model(pol))) && Model(pol) == Machines.Access(old(Model(pol)), p)
    ensures Placed(old(At(pol)), At(pol), p, res, evicted, victim)
    ensures evicted != null <==> !Machines.HasRoom(old(Model(pol)))
    ensures TakesFree(old(Free(pol)), Free(pol), res) && Cells(pol) == old(Cells(pol))
  {
    hide Valid, Ready, Cells, At, Free, Model, Placed, TakesFree, Machines.Access, Machines.Inv, Machines.HasRoom;
    match pol
    case Lru(l) => res, evicted, victim := GetLru(l, p);
    case TwoQ(q) => res, evicted, victim := GetTwoQ(q, p);
    case LruK(l) => res, evicted, victim := GetLruK(l, p);
    case Arc(a) => res, evicted, victim := GetArc(a, p);
  }

  method TouchFrame(pol: Policy, n: ListNode, ghost p: PageId)
    requires Valid(pol) && p in At(pol) && At(pol)[p] == n
    requires p in Machines.Resident(Model(pol)) && Machines.Inv(Model(pol))
    modifies Objects(pol), Cells(pol)`prev, Cells(pol)`next, Cells(pol)`home, Cells(pol)`state
    modifies Cells(pol)`pageId, Cells(pol)`lastAccess, Cells(pol)`heapId
    ensures Valid(pol) && Model(pol) == Machines.Access(old(Model(pol)), p)
    ensures At(pol) == old(At(pol)) && Free(pol) == old(Free(pol)) && Cells(pol) == old(Cells(pol))
  {
    hide LruPolicy.Valid, TwoQPolicy.Valid, LruKPolicy.Valid, ArcPolicy.Valid, LruPolicy.Cells, LruSpec.Bump,
      TwoQSpec.Touch, LruKSpec.Touch, ArcSpec.Touch, LruKSpec.Inv, ArcSpec.Inv;
    match pol {
      case Lru(l) => l.Touch(n, p);
      case TwoQ(q) => q.Touch(n, p);
      case LruK(l) =>
        l.FrameOf(p);
        l.Touch(n, p);
      case Arc(a) => a.Touch(n, p);
    }
  }

  /** touch of a resident page */
  method Touch(pol: Policy, n: ListNode, ghost p: PageId)
    requires Valid(pol) && Ready(pol) && p in At(pol) && At(pol)[p] == n
    modifies Objects(pol), Cells(pol)`prev, Cells(pol)`next, Cells(pol)`home, Cells(pol)`state
    modifies Cells(pol)`pageId, Cells(pol)`lastAccess, Cells(pol)`heapId
    ensures Valid(pol) && Ready(pol)
    ensures Machines.Inv(old(Model(pol))) && Model(pol) == Machines.Access(old(Model(pol)), p)
    ensures At(pol) == old(At(pol)) && Free(pol) == old(Free(pol)) && Cells(pol) == old(Cells(pol))
  {
    hide Valid, Cells, At, Free, Model, Machines.Access, Machines.Inv, Machines.Cap, Machines.Resident;
    Residents(pol, p);
    Machines.AccessStep(Model(pol), p);
    TouchFrame(pol, n, p);
  }
}
