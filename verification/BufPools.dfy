/** include/bufpool.hh */
module BufPools {
  import opened Pages
  import opened Sequences
  import opened Lists
  import opened Placement
  import Policies
  import Machines

  /** The frames' own page numbers and the table are inverse to each other. */
  ghost predicate Labelled(frames: set<ListNode>, table: Placing)
    reads frames`handleId
  {
    && (forall p :: p in table ==> table[p] in frames && table[p].handleId == p)
    && (forall n :: n in frames && n.handleId != INVALID_ID ==> n.handleId in table && table[n.handleId] == n)
    && INVALID_ID !in table
  }

  lemma LabelOf(frames: set<ListNode>, table: Placing, p: PageId)
    requires Labelled(frames, table) && p in table
    ensures table[p] in frames && table[p].handleId == p != INVALID_ID
  {
  }

  /** new BufferHandle[n] */
  method NewPages(n: nat) returns (pages: seq<ListNode>)
    ensures |pages| == n && Distinct(pages)
    ensures forall m :: m in pages ==> fresh(m) && m.Detached()
  {
    pages := [];
    var i := 0;
    while i < n
      invariant 0 <= i <= n && |pages| == i && Distinct(pages)
      invariant forall m :: m in pages ==> fresh(m) && m.Detached()
    {
      var page := new ListNode();
      pages := pages + [page];
      i := i + 1;
    }
  }

  lemma StartIsEmpty(kind: Policies.Kind, n: nat)
    ensures var m := Policies.Start(kind, n); Machines.Resident(m) == {} && Machines.Cap(m) == n
  {
  }

  class BufPool {
    const numPages: nat
    const pages: seq<ListNode>
    const policy: Policies.Policy
    var lookup: Placing

    ghost const frames: set<ListNode>   // the pages as a set
    ghost const objects: set<object>    // what the policy consists of
    ghost const cells: set<ListNode>    // every node it links
    ghost var callbacks: nat            // how often the policy has called back

    ghost function Model(): Machines.Machine
      requires objects == Policies.Objects(policy)
      reads objects
    {
      Policies.Model(policy)
    }

    ghost predicate Valid()
      reads this, objects, cells`prev, cells`next, cells`home, cells`state, cells`pageId, cells`lastAccess, cells`heapId
      reads frames`handleId
    {
      && objects == Policies.Objects(policy) && cells == Policies.Cells(policy) && this !in objects
      && Policies.Valid(policy) && Policies.Ready(policy) && Machines.Cap(Model()) == numPages
      && lookup == Policies.At(policy)
      && frames == Elems(pages) && Labelled(frames, lookup)
      && Elems(Policies.Free(policy)) <= frames
    }

    constructor (kind: Policies.Kind, n: nat)
      requires Policies.Constructible(kind, n)
      ensures Valid() && Model() == Policies.Start(kind, n) && lookup == map[] && callbacks == 0 && numPages == n
      ensures fresh(objects) && fresh(cells) && fresh(frames)
    {
      hide Policies.Valid, Policies.At, Policies.Model, Policies.Cells, Policies.Objects, Policies.Free,
        Policies.Start, Machines.Resident, Machines.Cap, ListNode.Detached;
      StartIsEmpty(kind, n);
      var ps := NewPages(n);
      var pol := Policies.New(kind, n);
      numPages, pages, policy, lookup, callbacks := n, ps, pol, map[], 0;
      frames, objects, cells := Elems(ps), Policies.Objects(pol), Policies.Cells(pol) + Elems(ps);
      new;
      PoolApart();
      RegisterPages();
    }

    lemma PoolApart()
      ensures this !in Policies.Objects(policy)
    {
    }

    /** Between registrations: the first i pages are free frames, the others still on their own. */
    ghost predicate Registered(i: nat)
      reads this, Policies.Objects(policy)
      reads Policies.Cells(policy)`prev, Policies.Cells(policy)`next, Policies.Cells(policy)`home
      reads Policies.Cells(policy)`state, Policies.Cells(policy)`pageId
      reads Policies.Cells(policy)`lastAccess, Policies.Cells(policy)`heapId
      reads frames`handleId, frames`prev, frames`next, frames`home
    {
      && i <= |pages| == numPages && Distinct(pages) && frames == Elems(pages)
      && objects == Policies.Objects(policy) && this !in objects
      && Policies.Valid(policy) && Machines.Resident(Model()) == {} && Machines.Cap(Model()) == numPages
      && Policies.At(policy) == map[] && lookup == map[]
      && |Policies.Free(policy)| == i && Elems(Policies.Free(policy)) <= frames
      && (forall j :: 0 <= j < i ==> pages[j].handleId == INVALID_ID)
      && (forall j :: i <= j < |pages| ==> pages[j].Detached() && pages[j] !in Policies.Cells(policy))
    }

    /** The loop of the constructor. */
    method RegisterPages()
      requires Registered(0) && cells == Policies.Cells(policy) + frames
      modifies Policies.Objects(policy), Policies.Cells(policy)`prev, Policies.Cells(policy)`next
      modifies frames`prev, frames`next, frames`home, frames`lastAccess, frames`handleId
      ensures Valid() && Model() == old(Model()) && lookup == old(lookup)
    {
      hide Policies.Valid, Policies.At, Policies.Model, Policies.Cells, Policies.Objects, Policies.Free, Machines.Cap;
      var i := 0;
      while i < numPages
        invariant Registered(i) && Model() == old(Model())
        invariant Policies.Cells(policy) == old(Policies.Cells(policy)) + Elems(pages[..i])
      {
        RegisterPage(pages[i], i);
        i := i + 1;
      }
    }

    method RegisterPage(page: ListNode, ghost i: nat)
      requires Registered(i) && i < |pages| && page == pages[i]
      modifies Policies.Objects(policy), Policies.Cells(policy)`prev, Policies.Cells(policy)`next
      modifies page`prev, page`next, page`home, page`lastAccess, page`handleId
      ensures Registered(i + 1) && Model() == old(Model())
      ensures Policies.Cells(policy) == old(Policies.Cells(policy)) + {page}
    {
      hide Policies.Valid, Policies.At, Policies.Model, Policies.Cells, Policies.Objects;
      Policies.NodesApart(policy);
      ElemsCons(page, Policies.Free(policy));
      page.handleId := INVALID_ID;
      Policies.Register(policy, page);
    }

    function Capacity(): nat { numPages }

    function ResidentPages(): nat
      reads this
    {
      |lookup|
    }

    predicate Contains(p: PageId)
      reads this
    {
      p in lookup
    }

    /** evict_callback */
    method EvictCallback(meta: ListNode)
      requires Labelled(frames, lookup) && meta in frames && meta.handleId != INVALID_ID
      modifies this`lookup, this`callbacks, meta`handleId
      ensures lookup == old(lookup) - {old(meta.handleId)} && meta.handleId == INVALID_ID
      ensures Labelled(frames, lookup) && callbacks == old(callbacks) + 1
    {
      lookup := lookup - {meta.handleId};
      meta.handleId := INVALID_ID;
      callbacks := callbacks + 1;
    }

    /** The end of the miss branch, with its assertion. */
    method Enter(res: ListNode, p: PageId)
      requires Labelled(frames, lookup) && res in frames && res.handleId == INVALID_ID
      requires p !in lookup && p != INVALID_ID
      modifies this`lookup, res`handleId
      ensures Labelled(frames, lookup) && lookup == old(lookup)[p := res] && res.handleId == p
    {
      assert res.handleId == INVALID_ID;
      res.handleId := p;
      lookup := lookup[p := res];
    }

    /** Table, frames and policy agree: distinct pages in distinct frames, exactly the machine's residents. */
    lemma LookupIsInverse()
      requires Valid()
      ensures forall n: ListNode, p: PageId {:trigger n.handleId, lookup[p]} :: n in frames && p != INVALID_ID ==>
                (n.handleId == p <==> p in lookup && lookup[p] == n)
      ensures Injective(lookup) && lookup.Keys == Machines.Resident(Model()) && |lookup| <= numPages
      ensures Machines.Inv(Model())
      ensures !policy.Lru? ==> forall p :: p in lookup ==> lookup[p].pageId == lookup[p].handleId == p
    {
      hide Policies.Valid;
      Policies.PlacedAreResident(policy);
      Machines.AccessStep(Model(), 0);
      assert |lookup.Keys| == |lookup|;
      if !policy.Lru? {
        forall p | p in lookup
          ensures lookup[p].pageId == p
        {
          Policies.PageIdAgrees(policy, p);
        }
      }
    }

    /** The table has as many entries as there are resident pages. */
    lemma LookupSize()
      requires Valid()
      ensures objects == Policies.Objects(policy) && Machines.Inv(Model()) && Machines.Cap(Model()) == numPages
      ensures |lookup| == |Machines.Resident(Model())| && lookup.Keys == Machines.Resident(Model())
      ensures |Policies.Free(policy)| + |lookup| == numPages
    {
      hide Policies.Valid, Policies.At, Policies.Model, Policies.Cells, Policies.Objects, Policies.Free, Labelled;
      Policies.PlacedAreResident(policy);
      assert |lookup.Keys| == |lookup|;
    }

    /** The miss branch up to the callback. */
    method Fetch(p: PageId) returns (res: ListNode, evicted: ListNode?, ghost victim: PageId)
      requires Valid() && p !in lookup && p != INVALID_ID
      modifies objects, cells`prev, cells`next, cells`home, cells`state, cells`pageId, cells`lastAccess, cells`heapId
      ensures Policies.Valid(policy) && Policies.Ready(policy) && Machines.Cap(Model()) == numPages
      ensures Machines.Inv(old(Model())) && Model() == Machines.Access(old(Model()), p)
      ensures Policies.Cells(policy) == cells
      ensures lookup == old(lookup) && callbacks == old(callbacks) && Labelled(frames, lookup)
      ensures Elems(Policies.Free(policy)) <= frames && res in frames
      ensures Placed(lookup, Policies.At(policy), p, res, evicted, victim)
      ensures evicted != null <==> |lookup| == numPages
      ensures evicted == null ==> res.handleId == INVALID_ID
      ensures evicted != null ==> res.handleId == victim != INVALID_ID
    {
      hide Policies.Valid, Policies.At, Policies.Model, Policies.Cells, Policies.Objects, Policies.Free,
        Machines.Access, Machines.Inv, Machines.Resident, Machines.Cap, Labelled, Elems;
      LookupSize();
      Machines.AccessStep(Model(), p);
      Policies.NodesApart(policy);
      ghost var free := Policies.Free(policy);
      res, evicted, victim := Policies.Get(policy, p);
      Fetched(free, Policies.Free(policy), res, evicted, p, victim);
    }

    /** A free frame has no label; the frame of the victim has the victim's. */
    lemma Fetched(free: seq<ListNode>, free': seq<ListNode>, res: ListNode, evicted: ListNode?, p: PageId,
                  victim: PageId)
      requires Labelled(frames, lookup) && Elems(free) <= frames && TakesFree(free, free', res)
      requires Placed(lookup, Policies.At(policy), p, res, evicted, victim)
      requires evicted == null ==> free != []
      ensures res in frames && Elems(free') <= frames
      ensures evicted == null ==> res.handleId == INVALID_ID
      ensures evicted != null ==> res.handleId == victim != INVALID_ID
    {
    }

    method Miss(p: PageId) returns (res: ListNode)
      requires Valid() && p !in lookup && p != INVALID_ID
      modifies this`lookup, this`callbacks, objects, cells`prev, cells`next, cells`home, cells`state
      modifies cells`pageId, cells`lastAccess, cells`heapId, frames`handleId
      ensures Valid() && p in lookup && res == lookup[p]
      ensures Machines.Inv(old(Model())) && Model() == Machines.Access(old(Model()), p)
      ensures callbacks == old(callbacks) + if |old(lookup)| == numPages then 1 else 0
      ensures Steady(old(lookup), lookup)
    {
      hide Policies.Valid, Policies.At, Policies.Model, Policies.Cells, Policies.Objects, Policies.Free,
        Machines.Access, Machines.Inv, Machines.Resident, Labelled, Elems, Steady;
      Policies.NodesApart(policy);
      var evicted;
      ghost var victim;
      res, evicted, victim := Fetch(p);
      PlacedIsSteady(lookup, Policies.At(policy), p, res, evicted, victim);
      if evicted != null {
        EvictCallback(evicted);
      }
      Enter(res, p);
    }

    /** _get_page */
    method GetPage(p: PageId) returns (res: ListNode)
      requires Valid() && p != INVALID_ID
      modifies this`lookup, this`callbacks, objects, cells`prev, cells`next, cells`home, cells`state
      modifies cells`pageId, cells`lastAccess, cells`heapId, frames`handleId
      ensures Valid() && p in lookup && res == lookup[p]
      ensures Machines.Inv(old(Model())) && Model() == Machines.Access(old(Model()), p)
      ensures callbacks == old(callbacks) + if p !in old(lookup) && |old(lookup)| == numPages then 1 else 0
      ensures Steady(old(lookup), lookup) && (p in old(lookup) ==> lookup == old(lookup))
    {
      hide Policies.Valid, Policies.At, Policies.Model, Policies.Cells, Policies.Objects, Policies.Free,
        Machines.Access, Machines.Inv, Machines.Resident, Labelled, Elems;
      if p !in lookup {
        res := Miss(p);
      } else {
        LabelOf(frames, lookup, p);
        LookupSize();
        Machines.AccessStep(Model(), p);
        Policies.NodesApart(policy);
        res := lookup[p];
        assert res.handleId == p;
        Policies.Touch(policy, res, p);
      }
    }
  }
}
