/** The intrusive circular list of include/list.hh. */
module Lists {
  import opened Pages
  import opened Sequences
  import opened AccessTimes

  /** The state tags of ARCMetadata, ARCHistory and S2QMetadata. */
  datatype State = FREE | COLD | HOT

  /**
   * ListNode together with the fields of the structures derived from it; each policy
   * uses its own ones. handleId is the page_id that _BufferPageHandle declares anew.
   */
  class ListNode {
    var prev: ListNode
    var next: ListNode
    ghost var home: List?      // the list this node is linked in, or is the dummy of

    var state: State
    var pageId: PageId
    var lastAccess: Times
    var heapId: nat
    var handleId: PageId

    constructor ()
      ensures Detached()
    {
      prev, next := this, this;
      home := null;
      state, pageId, lastAccess, heapId, handleId := FREE, 0, [], 0, 0;
    }

    ghost predicate Detached()
      reads this`prev, this`next, this`home
    {
      home == null && prev == this && next == this
    }

    /** LRUKMetadata::update_latest: shift the array left and store the newest number at its back. */
    method UpdateLatest(seqnum: nat)
      requires lastAccess != []
      modifies this`lastAccess
      ensures lastAccess == Shifted(old(lastAccess), seqnum)
    {
      var k := |lastAccess|;
      var i := 1;
      while i < k
        invariant 1 <= i <= k && |lastAccess| == k
        invariant forall j :: 0 <= j < k ==> lastAccess[j] == old(lastAccess)[if j < i - 1 then j + 1 else j]
      {
        lastAccess := lastAccess[i - 1 := lastAccess[i]];
        i := i + 1;
      }
      lastAccess := lastAccess[k - 1 := seqnum];
    }

    /** ListNode::push_front, called on the dummy of l. */
    method PushFront(other: ListNode, ghost l: List)
      requires this == l.dummy && l.Linked() && other.Detached()
      modifies l.Cells()`prev, l.Cells()`next, other`prev, other`next, other`home, l`nodes
      ensures l.Linked() && l.nodes == [other] + old(l.nodes)
      ensures forall m: List {:trigger m.Linked()} :: m != l && old(allocated(m)) && old(m.Linked()) ==> m.Linked()
    {
      next.prev := other;
      other.next := next;
      other.prev := this;
      this.next := other;
      l.nodes := [other] + l.nodes;
      other.home := l;
    }

    /** ListNode::push_back, called on the dummy of l. */
    method PushBack(other: ListNode, ghost l: List)
      requires this == l.dummy && l.Linked() && other.Detached()
      modifies l.Cells()`prev, l.Cells()`next, other`prev, other`next, other`home, l`nodes
      ensures l.Linked() && l.nodes == old(l.nodes) + [other]
      ensures forall m: List {:trigger m.Linked()} :: m != l && old(allocated(m)) && old(m.Linked()) ==> m.Linked()
    {
      prev.next := other;
      other.prev := prev;
      other.next := this;
      this.prev := other;
      l.nodes := l.nodes + [other];
      other.home := l;
    }

    /** The pointer work of ListNode::release; harmless when the neighbours already skip this node. */
    method Unlink()
      requires prev != this && next != this
      modifies this`prev, this`next, this.prev`next, this.next`prev
      ensures prev == this && next == this
      ensures old(prev).next == old(next) && old(next).prev == old(prev)
    {
      prev.next := next;
      next.prev := prev;
      prev, next := this, this;
    }

    /** ListNode::pop_back, called on the dummy of l. */
    method PopBack(ghost l: List) returns (res: ListNode)
      requires this == l.dummy && l.Linked() && l.nodes != []
      modifies l.Cells()`prev, l.Cells()`next, l.Cells()`home, l`nodes
      ensures l.Linked() && l.nodes == Init(old(l.nodes))
      ensures res == Last(old(l.nodes)) && res.Detached()
      ensures forall m: List {:trigger m.Linked()} :: m != l && old(allocated(m)) && old(m.Linked()) ==> m.Linked()
    {
      ghost var n := |l.nodes|;
      res := this.prev;
      assert l.nodes[n - 1] == res;
      res.prev.next := this;
      this.prev := res.prev;
      l.nodes := l.nodes[..n - 1];
      res.Unlink();
      res.home := null;
    }

    /** ListNode::release, called on the k-th node of l. */
    method Release(ghost l: List, ghost k: nat)
      requires l.Valid() && k < |l.nodes| && l.nodes[k] == this
      modifies l.Cells()`prev, l.Cells()`next, this`home, l`nodes
      ensures l.Valid() && l.nodes == Cut(old(l.nodes), k)
      ensures Detached()
      ensures forall m: List {:trigger m.Valid()} :: m != l && old(allocated(m)) && old(m.Valid()) ==> m.Valid()
    {
      Leave(l, k);
    }

    /** The work of release, as far as l is concerned. */
    method Leave(ghost l: List, ghost k: nat)
      requires l.Valid() && k < |l.nodes| && l.nodes[k] == this
      modifies l.Cells()`prev, l.Cells()`next, this`home, l`nodes
      ensures l.Valid() && l.nodes == Cut(old(l.nodes), k)
      ensures Detached()
    {
      hide Distinct;
      ghost var ns, rest := l.nodes, Cut(l.nodes, k);
      CutMembers(ns, k);
      OnlyAt(ns, k - 1);
      OnlyAt(ns, k);
      OnlyAt(ns, k + 1);
      assert forall i :: 0 <= i < |rest| ==> rest[i] == ns[if i < k then i else i + 1];
      Unlink();
      l.nodes := rest;
      home := null;
      assert l.dummy.next == (if rest == [] then l.dummy else rest[0]);
      assert l.dummy.prev == (if rest == [] then l.dummy else Last(rest));
    }
  }

  class List {
    const dummy: ListNode
    var size: nat
    ghost var nodes: seq<ListNode>

    /** Every node whose links belong to this list. */
    ghost function Cells(): set<ListNode>
      reads this
    {
      {dummy} + Elems(nodes)
    }

    ghost predicate Linked()
      reads this, Cells()`prev, Cells()`next, Cells()`home
    {
      var n := |nodes|;
      && dummy.home == this
      && (forall i :: 0 <= i < n ==> nodes[i].home == this && nodes[i] != dummy)
      && Distinct(nodes)
      && dummy.next == (if n == 0 then dummy else nodes[0])
      && dummy.prev == (if n == 0 then dummy else nodes[n - 1])
      && (forall i {:trigger nodes[i].next} :: 0 <= i < n ==>
            nodes[i].next == if i == n - 1 then dummy else nodes[i + 1])
      && (forall i {:trigger nodes[i].prev} :: 0 <= i < n ==>
            nodes[i].prev == if i == 0 then dummy else nodes[i - 1])
    }

    ghost predicate Valid()
      reads this, Cells()`prev, Cells()`next, Cells()`home
    {
      Linked() && size >= |nodes|
    }

    lemma NodesDistinct()
      requires Valid()
      ensures Distinct(nodes) && dummy !in nodes
      ensures forall n :: n in Cells() ==> n.home == this
    {
    }

    /** A node of another list, or of none, is not on this one. */
    lemma NotHere(n: ListNode)
      requires Valid() && n.home != this
      ensures n !in Cells() && forall i :: 0 <= i < |nodes| ==> nodes[i] != n
    {
    }

    constructor ()
      ensures Valid() && nodes == [] && size == 0
      ensures fresh(Cells())
    {
      dummy := new ListNode();
      size, nodes := 0, [];
      new;
      dummy.home := this;
    }

    /** The flag is exact when the counter is; with a drifted counter it only fails to notice emptiness. */
    predicate Empty()
      requires Valid()
      reads this, Cells()`prev, Cells()`next, Cells()`home
      ensures Empty() ==> nodes == []
      ensures size == |nodes| ==> (Empty() <==> nodes == [])
    {
      assert size != 0 || (dummy.next == dummy && dummy.prev == dummy);
      size == 0
    }

    method PushFront(other: ListNode)
      requires Valid() && other.Detached()
      modifies this, Cells()`prev, Cells()`next, other`prev, other`next, other`home
      ensures Valid() && nodes == [other] + old(nodes) && size == old(size) + 1
      ensures Cells() == old(Cells()) + {other}
      ensures forall m: List {:trigger m.Valid()} :: m != this && old(allocated(m)) && old(m.Valid()) ==> m.Valid()
    {
      ElemsCons(other, nodes);
      dummy.PushFront(other, this);
      size := size + 1;
    }

    method PushBack(other: ListNode)
      requires Valid() && other.Detached()
      modifies this, Cells()`prev, Cells()`next, other`prev, other`next, other`home
      ensures Valid() && nodes == old(nodes) + [other] && size == old(size) + 1
      ensures forall m: List {:trigger m.Valid()} :: m != this && old(allocated(m)) && old(m.Valid()) ==> m.Valid()
    {
      dummy.PushBack(other, this);
      size := size + 1;
    }

    method PopBack() returns (res: ListNode)
      requires Valid() && nodes != []
      modifies this, Cells()`prev, Cells()`next, Cells()`home
      ensures Valid() && nodes == Init(old(nodes)) && size == old(size) - 1
      ensures res == Last(old(nodes)) && res.Detached()
      ensures forall m: List {:trigger m.Valid()} :: m != this && old(allocated(m)) && old(m.Valid()) ==> m.Valid()
    {
      size := size - 1;
      res := dummy.PopBack(this);
    }

    /** List::_release_callback: catches the counter up after one of the nodes released itself. */
    method ReleaseCallback()
      requires Valid() && size > |nodes|
      modifies this`size
      ensures Valid() && size == old(size) - 1
      ensures forall m: List {:trigger m.Valid()} :: m != this && old(allocated(m)) && old(m.Valid()) ==> m.Valid()
    {
      size := size - 1;
    }
  }
}
