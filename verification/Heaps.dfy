/** Min-heap order on sequences of keys, as include/heap.hh lays them out. */
module HeapOrder {
  import opened AccessTimes

  function Parent(i: nat): (p: nat)
    requires i > 0
    ensures p < i && (i == 2 * p + 1 || i == 2 * p + 2)
  {
    (i - 1) / 2
  }

  function Left(i: nat): nat { 2 * i + 1 }

  function Right(i: nat): nat { 2 * (i + 1) }

  /** No key is below its parent's, except perhaps the one at up and those of the children of down. */
  ghost predicate OrderedBut(ks: seq<Times>, up: int, down: int) {
    forall i {:trigger ks[i]} :: 0 < i < |ks| && i != up && Parent(i) != down ==> !Less(ks[i], ks[Parent(i)])
  }

  ghost predicate Ordered(ks: seq<Times>) {
    OrderedBut(ks, -1, -1)
  }

  /** The children of i are not below the parent of i. */
  ghost predicate Bridged(ks: seq<Times>, i: nat) {
    0 < i < |ks| ==> forall j {:trigger ks[j]} :: 0 < j < |ks| && Parent(j) == i ==> !Less(ks[j], ks[Parent(i)])
  }

  ghost function Swapped<T>(s: seq<T>, i: nat, j: nat): seq<T>
    requires i < |s| && j < |s|
  {
    s[i := s[j]][j := s[i]]
  }

  /** The root is a least key. */
  lemma {:induction false} RootIsLeast(ks: seq<Times>, i: nat)
    requires Ordered(ks) && i < |ks|
    ensures !Less(ks[i], ks[0])
  {
    hide Less;
    if i == 0 {
      LessIrreflexive(ks[0]);
    } else {
      RootIsLeast(ks, Parent(i));
      LessTransitive(ks[0], ks[Parent(i)], ks[i]);
    }
  }

  /** A new last key can only be out of order with its own parent. */
  lemma Appended(ks: seq<Times>, k: Times)
    requires Ordered(ks)
    ensures OrderedBut(ks + [k], |ks|, -1) && Bridged(ks + [k], |ks|)
  {
  }

  /** Lowering one key can only put it out of order with its own parent. */
  lemma Lowered(ks: seq<Times>, id: nat, k: Times)
    requires Ordered(ks) && id < |ks| && Less(k, ks[id])
    ensures OrderedBut(ks[id := k], id, -1) && Bridged(ks[id := k], id) && NoSmallerChild(ks[id := k], id)
    ensures OutOfOrder(ks[id := k], id) <==> id > 0 && Less(k, ks[Parent(id)])
    ensures Ordered(ks[id := k]) <==> id == 0 || !Less(k, ks[Parent(id)])
  {
    hide Less;
    LessAsymmetric(k, ks[id]);
    assert id > 0 ==> ks[id := k][id] == k && ks[id := k][Parent(id)] == ks[Parent(id)];
    forall j | 0 < j < |ks| && Parent(j) == id
      ensures !Less(ks[j], k) && (id > 0 ==> !Less(ks[j], ks[Parent(id)]))
    {
      LessTransitive(k, ks[id], ks[j]);
      if id > 0 { LessTransitive(ks[Parent(id)], ks[id], ks[j]); }
    }
  }

  /** Raising one key can only put it out of order with its own children. */
  lemma Raised(ks: seq<Times>, id: nat, k: Times)
    requires Ordered(ks) && id < |ks| && !Less(k, ks[id])
    ensures OrderedBut(ks[id := k], -1, id) && Bridged(ks[id := k], id)
    ensures OutOfOrder(ks[id := k], id) <==> !NoSmallerChild(ks[id := k], id)
    ensures id > 0 ==> !Less(k, ks[Parent(id)])
  {
    hide Less;
    if id > 0 {
      LessTransitive(ks[Parent(id)], ks[id], k);
      forall j | 0 < j < |ks| && Parent(j) == id
        ensures !Less(ks[j], ks[Parent(id)])
      {
        LessTransitive(ks[Parent(id)], ks[id], ks[j]);
      }
    }
  }

  lemma SiftUpStep(ks: seq<Times>, cur: nat)
    requires 0 < cur < |ks| && OrderedBut(ks, cur, -1) && Bridged(ks, cur) && Less(ks[cur], ks[Parent(cur)])
    ensures OrderedBut(Swapped(ks, cur, Parent(cur)), Parent(cur), -1)
    ensures Bridged(Swapped(ks, cur, Parent(cur)), Parent(cur))
  {
    hide Less;
    var p := Parent(cur);
    var ks' := Swapped(ks, cur, p);
    LessAsymmetric(ks[cur], ks[p]);
    forall i | 0 < i < |ks'| && i != p
      ensures !Less(ks'[i], ks'[Parent(i)])
    {
      if i != cur && Parent(i) == p {
        LessTransitive(ks[cur], ks[p], ks[i]);
      }
    }
    forall j | 0 < p && 0 < j < |ks'| && Parent(j) == p
      ensures !Less(ks'[j], ks'[Parent(p)])
    {
      if j != cur {
        LessTransitive(ks[Parent(p)], ks[p], ks[j]);
      }
    }
  }

  lemma SiftUpDone(ks: seq<Times>, cur: nat)
    requires OrderedBut(ks, cur, -1) && (0 < cur < |ks| ==> !Less(ks[cur], ks[Parent(cur)]))
    ensures Ordered(ks)
  {
  }

  /** c is a least child of cur, and below it. */
  ghost predicate SmallestChild(ks: seq<Times>, cur: nat, c: nat) {
    && cur < |ks| && 0 < c < |ks| && Parent(c) == cur && Less(ks[c], ks[cur])
    && forall j {:trigger ks[j]} :: 0 < j < |ks| && Parent(j) == cur ==> !Less(ks[j], ks[c])
  }

  ghost predicate NoSmallerChild(ks: seq<Times>, cur: nat)
    requires cur < |ks|
  {
    forall j {:trigger ks[j]} :: 0 < j < |ks| && Parent(j) == cur ==> !Less(ks[j], ks[cur])
  }

  /** The key at id comes before its parent, or after a child. */
  ghost predicate OutOfOrder(ks: seq<Times>, id: nat)
    requires id < |ks|
  {
    (id > 0 && Less(ks[id], ks[Parent(id)])) || !NoSmallerChild(ks, id)
  }

  lemma SiftDownStep(ks: seq<Times>, cur: nat, c: nat)
    requires OrderedBut(ks, -1, cur) && Bridged(ks, cur) && SmallestChild(ks, cur, c)
    ensures OrderedBut(Swapped(ks, cur, c), -1, c) && Bridged(Swapped(ks, cur, c), c)
  {
    hide Less;
    var ks' := Swapped(ks, cur, c);
    LessAsymmetric(ks[c], ks[cur]);
  }

  /** What the two comparisons of the sift-down loop leave in swap_cand. */
  lemma Candidate(ks: seq<Times>, cur: nat, cand: nat)
    requires var left, right := Left(cur), Right(cur);
             var c := if left < |ks| && cur < |ks| && Less(ks[left], ks[cur]) then left else cur;
             cand == if right < |ks| && c < |ks| && Less(ks[right], ks[c]) then right else c
    ensures cand != cur ==> SmallestChild(ks, cur, cand)
    ensures cand == cur && cur < |ks| ==> NoSmallerChild(ks, cur)
  {
    hide Less;
    var left, right := Left(cur), Right(cur);
    assert forall j {:trigger Parent(j)} :: 0 < j && Parent(j) == cur ==> j == left || j == right;
    if cand == right {
      if left < |ks| {
        if Less(ks[left], ks[cur]) {
          LessAsymmetric(ks[right], ks[left]);
          LessChain(ks[right], ks[left], ks[cur]);
        } else {
          LessAsymmetric(ks[right], ks[cur]);
          LessTransitive(ks[right], ks[cur], ks[left]);
        }
      }
      LessIrreflexive(ks[right]);
    } else if cand == left {
      LessIrreflexive(ks[left]);
    }
  }

  lemma SmallestIsSmaller(ks: seq<Times>, cur: nat, c: nat)
    requires SmallestChild(ks, cur, c)
    ensures !NoSmallerChild(ks, cur)
  {
  }

  /** After the swap with the root, dropping the last slot leaves only the root out of order. */
  lemma DropLast(ks: seq<Times>)
    requires Ordered(ks) && ks != []
    ensures var ks' := Swapped(ks, 0, |ks| - 1)[..|ks| - 1]; OrderedBut(ks', -1, 0) && Bridged(ks', 0)
  {
  }

  lemma SiftDownDone(ks: seq<Times>, cur: nat)
    requires OrderedBut(ks, -1, cur) && (cur < |ks| ==> NoSmallerChild(ks, cur))
    ensures Ordered(ks)
  {
  }
}

/**
 * include/heap.hh, instantiated as LRUKPolicy does: node pointers, compared by last_access, with the
 * slot in heap_id.
 */
module Heaps {
  import opened Lists
  import opened AccessTimes
  import opened HeapOrder

  /** No node of nodes comes before n. */
  ghost predicate LeastOf(nodes: set<ListNode>, n: ListNode)
    reads nodes`lastAccess, n`lastAccess
  {
    forall m :: m in nodes ==> !Less(m.lastAccess, n.lastAccess)
  }

  class UpdatableHeap {
    const heap: array<ListNode?>
    var size: nat
    ghost var elems: set<ListNode>
    ghost var keys: seq<Times>      // the keys by which the slots are ordered

    /** The slots below size hold elements, and, except at slot stale, their keys are ks. */
    ghost predicate Slots(ks: seq<Times>, stale: int)
      reads this, heap, elems`lastAccess
    {
      && |ks| == size <= heap.Length
      && forall i :: 0 <= i < size ==>
           heap[i] != null && heap[i] in elems && (i != stale ==> heap[i].lastAccess == ks[i])
    }

    /** Every element but n knows its slot. */
    ghost predicate BackIndexed(n: ListNode?)
      reads this, heap, elems`heapId
    {
      && size <= heap.Length
      && (forall i :: 0 <= i < size && heap[i] != n ==> heap[i] != null && heap[i] in elems && heap[i].heapId == i)
      && (forall m :: m in elems && m != n ==> m.heapId < size && heap[m.heapId] == m)
    }

    /** n, if any, is in slot i only. */
    ghost predicate Alone(n: ListNode?, i: nat)
      reads this, heap
    {
      n != null ==> i < size <= heap.Length && heap[i] == n && forall j :: 0 <= j < size && j != i ==> heap[j] != n
    }

    ghost predicate Valid()
      reads this, heap, elems`heapId, elems`lastAccess
    {
      Slots(keys, -1) && BackIndexed(null) && Ordered(keys) && |elems| == size
    }

    constructor (capacity: nat)
      ensures Valid() && elems == {} && size == 0 && heap.Length == capacity && fresh(heap)
    {
      heap := new ListNode?[capacity](_ => null);
      size, elems, keys := 0, {}, [];
    }

    /** std::swap of two slots. */
    method SwapSlots(i: nat, j: nat)
      requires Slots(keys, -1) && i < size && j < size
      modifies this`keys, heap
      ensures Slots(keys, -1) && keys == Swapped(old(keys), i, j)
      ensures heap[i] == old(heap[j]) && heap[j] == old(heap[i])
      ensures forall k :: 0 <= k < heap.Length && k != i && k != j ==> heap[k] == old(heap[k])
    {
      keys := Swapped(keys, i, j);
      heap[i], heap[j] := heap[j], heap[i];
    }

    /** std::swap of two slots, and the callback for both, one of which may hold the stray n. */
    method Exchange(i: nat, j: nat, ghost n: ListNode?)
      requires Slots(keys, -1) && i < size && j < size && BackIndexed(n) && Alone(n, i)
      modifies this`keys, heap, elems`heapId
      ensures Slots(keys, -1) && BackIndexed(null) && keys == Swapped(old(keys), i, j)
      ensures heap[i] == old(heap[j]) && heap[j] == old(heap[i])
      ensures forall k :: 0 <= k < heap.Length && k != i && k != j ==> heap[k] == old(heap[k])
    {
      SwapSlots(i, j);
      heap[i].heapId := i;
      heap[j].heapId := j;
    }

    /** std::swap with the parent, and the callback for the parent only, as push does while value rises. */
    method Rise(cur: nat, value: ListNode)
      requires 0 < cur < size && Slots(keys, -1) && heap[cur] == value && BackIndexed(value)
      requires forall i :: 0 <= i < size && i != cur ==> heap[i] != value
      modifies this`keys, heap, elems`heapId
      ensures Slots(keys, -1) && heap[Parent(cur)] == value && BackIndexed(value)
      ensures forall i :: 0 <= i < size && i != Parent(cur) ==> heap[i] != value
      ensures keys == Swapped(old(keys), cur, Parent(cur))
    {
      SwapSlots(cur, Parent(cur));
      heap[cur].heapId := cur;
    }

    /** The value goes into the first free slot; the callback for it comes last. */
    method Append(value: ListNode)
      requires Valid() && value !in elems && size < heap.Length
      modifies this, heap
      ensures size == old(size) + 1 && elems == old(elems) + {value} && |elems| == size
      ensures Slots(keys, -1) && heap[size - 1] == value && BackIndexed(value)
      ensures forall i :: 0 <= i < size - 1 ==> heap[i] != value
      ensures OrderedBut(keys, size - 1, -1) && Bridged(keys, size - 1)
    {
      hide Less, OrderedBut, Bridged;
      Appended(keys, value.lastAccess);
      assert |elems + {value}| == size + 1;
      heap[size] := value;
      size := size + 1;
      elems, keys := elems + {value}, keys + [value.lastAccess];
    }

    /** The loop of push, and the callback for value in its final slot. */
    method Climb(value: ListNode)
      requires size > 0 && |elems| == size && Slots(keys, -1) && heap[size - 1] == value && BackIndexed(value)
      requires forall i :: 0 <= i < size - 1 ==> heap[i] != value
      requires OrderedBut(keys, size - 1, -1) && Bridged(keys, size - 1)
      modifies this`keys, heap, elems`heapId
      ensures Valid()
    {
      hide Less, OrderedBut, Bridged;
      var cur := size - 1;
      while cur > 0 && Less(heap[cur].lastAccess, heap[Parent(cur)].lastAccess)
        invariant 0 <= cur < size && Slots(keys, -1) && heap[cur] == value
        invariant BackIndexed(value) && forall i :: 0 <= i < size && i != cur ==> heap[i] != value
        invariant OrderedBut(keys, cur, -1) && Bridged(keys, cur)
      {
        SiftUpStep(keys, cur);
        Rise(cur, value);
        cur := Parent(cur);
      }
      SiftUpDone(keys, cur);
      Settle(cur, value);
    }

    /** The callback that ends push. */
    method Settle(cur: nat, value: ListNode)
      requires cur < size && Slots(keys, -1) && heap[cur] == value && BackIndexed(value)
      requires forall i :: 0 <= i < size && i != cur ==> heap[i] != value
      modifies elems`heapId
      ensures Slots(keys, -1) && BackIndexed(null)
    {
      heap[cur].heapId := cur;
    }

    method Push(value: ListNode)
      requires Valid() && value !in elems && size < heap.Length
      modifies this, heap, elems`heapId, value`heapId
      ensures Valid() && elems == old(elems) + {value} && size == old(size) + 1
    {
      hide Less, OrderedBut, Bridged;
      Append(value);
      Climb(value);
    }

    /** The two comparisons of the sift-down loop. */
    method SwapCandidate(cur: nat) returns (swapCand: nat)
      requires Slots(keys, -1)
      ensures swapCand != cur ==> SmallestChild(keys, cur, swapCand)
      ensures swapCand == cur && cur < size ==> NoSmallerChild(keys, cur)
    {
      hide Less;
      swapCand := cur;
      if Left(cur) < size && Less(heap[Left(cur)].lastAccess, heap[swapCand].lastAccess) {
        swapCand := Left(cur);
      }
      if Right(cur) < size && Less(heap[Right(cur)].lastAccess, heap[swapCand].lastAccess) {
        swapCand := Right(cur);
      }
      Candidate(keys, cur, swapCand);
    }

    /**
     * The loop that pop and update share. It moves the key at start exactly when a child comes before it.
     * n, if any, does not know its slot until it is swapped.
     */
    method SiftDown(start: nat, ghost n: ListNode?)
      requires Slots(keys, -1) && BackIndexed(n) && Alone(n, start)
      requires if start < size && NoSmallerChild(keys, start) then true
               else OrderedBut(keys, -1, start) && (start < size ==> Bridged(keys, start))
      modifies this`keys, heap, elems`heapId
      ensures Slots(keys, -1) && BackIndexed(n)
      ensures old(OrderedBut(keys, -1, start)) ==> Ordered(keys)
      ensures start < size && NoSmallerChild(old(keys), start) ==> keys == old(keys)
      ensures n != null ==>
                if NoSmallerChild(old(keys), start) then Alone(n, start) && n.heapId == old(n.heapId)
                else heap[start] != n && BackIndexed(null)
    {
      hide BackIndexed, Less, OrderedBut, Bridged, NoSmallerChild;
      var cur := start;
      while true
        invariant Slots(keys, -1) && cur >= start
        invariant if cur == start
                  then keys == old(keys) && BackIndexed(n) && Alone(n, start)
                       && (n != null ==> n.heapId == old(n.heapId))
                  else BackIndexed(null) && start < size && heap[start] != n && !NoSmallerChild(old(keys), start)
        invariant if cur == start && start < size && NoSmallerChild(keys, start) then true
                  else OrderedBut(keys, -1, cur) && (cur < size ==> Bridged(keys, cur))
        decreases size - cur
      {
        var swapCand := SwapCandidate(cur);
        if swapCand == cur {
          break;
        }
        SmallestIsSmaller(keys, cur, swapCand);
        SiftDownStep(keys, cur, swapCand);
        Exchange(cur, swapCand, if cur == start then n else null);
        cur := swapCand;
      }
      if old(OrderedBut(keys, -1, start)) { SiftDownDone(keys, cur); }
      if cur != start { KnowsToo(n); }
    }

    lemma KnowsToo(n: ListNode?)
      requires Slots(keys, -1) && BackIndexed(null)
      ensures BackIndexed(n)
    {
    }

    /** Swaps the root with the last slot and gives that slot up. */
    method CutRoot()
      requires Valid() && size > 0
      modifies this, heap, elems`heapId
      ensures elems == old(elems) - {old(heap[0])} && size == old(size) - 1 && |elems| == size
      ensures Slots(keys, -1) && BackIndexed(null)
      ensures OrderedBut(keys, -1, 0) && Bridged(keys, 0)
    {
      hide Less, OrderedBut, Bridged, Slots, BackIndexed;
      RootInside();
      DropLast(keys);
      Exchange(0, size - 1, null);
      Shrink();
    }

    lemma RootInside()
      requires Valid() && size > 0
      ensures |keys| == size == |elems| && size <= heap.Length && heap[0] != null && heap[0] in elems
    {
      hide BackIndexed, Ordered;
    }

    /** size_-- */
    method Shrink()
      requires Slots(keys, -1) && BackIndexed(null) && 0 < size == |elems|
      modifies this
      ensures elems == old(elems) - {heap[old(size) - 1]} && size == old(size) - 1 && |elems| == size
      ensures Slots(keys, -1) && BackIndexed(null) && keys == old(keys)[..size]
    {
      elems, keys := elems - {heap[size - 1]}, keys[..size - 1];
      size := size - 1;
    }

    method Pop() returns (res: ListNode)
      requires Valid() && size > 0
      modifies this, heap, elems`heapId
      ensures Valid() && res in old(elems) && elems == old(elems) - {res} && size == old(size) - 1
      ensures LeastOf(old(elems), res)
    {
      hide Less, Ordered, OrderedBut, Bridged, Slots, BackIndexed, LeastOf;
      RootInside();
      res := heap[0];
      RootIsLeastKey();
      CutRoot();
      SiftDown(0, null);
    }

    lemma RootIsLeastKey()
      requires Valid() && size > 0
      ensures heap.Length > 0 && heap[0] != null && LeastOf(elems, heap[0])
    {
      hide Less, Ordered;
      forall n | n in elems
        ensures !Less(n.lastAccess, heap[0].lastAccess)
      {
        RootIsLeast(keys, n.heapId);
      }
    }

    lemma SecondOfTwo(a: ListNode, b: ListNode)
      requires Valid() && elems == {a, b} && Less(a.lastAccess, b.lastAccess)
      ensures b.heapId == 1 && size == 2 && |keys| == 2 && keys[0] == a.lastAccess
    {
      hide Ordered;
      LessIrreflexive(a.lastAccess);
      RootIsLeastKey();
    }

    /** What is left of Valid after the key of meta has been overwritten in place. */
    twostate lemma KeyOverwritten(meta: ListNode)
      requires old(Valid()) && meta in elems
      requires unchanged(this) && unchanged(heap) && unchanged(elems`heapId)
      requires forall n :: n in elems && n != meta ==> n.lastAccess == old(n.lastAccess)
      ensures meta.heapId < size == |elems| == |keys| && heap[meta.heapId] == meta
      ensures Slots(keys, meta.heapId) && BackIndexed(null) && Ordered(keys)
      ensures keys[meta.heapId] == old(meta.lastAccess)
    {
      hide Less, OrderedBut;
    }

    /** heap_[heap_id] = value, after which the slot has the key that value has now. */
    method Store(id: nat, value: ListNode)
      requires |keys| == size == |elems| && id < size && BackIndexed(null)
      requires if heap[id] == value then Slots(keys, id) else Slots(keys, -1) && value !in elems
      modifies this`elems, this`keys, heap
      ensures Slots(keys, -1) && BackIndexed(value) && Alone(value, id) && |elems| == size
      ensures keys == old(keys)[id := value.lastAccess] && elems == old(elems) - {old(heap[id])} + {value}
    {
      elems, keys := elems - {heap[id]} + {value}, keys[id := value.lastAccess];
      heap[id] := value;
    }

    /**
     * Puts value in slot id. Either value is the pointer already there, whose key was changed in
     * place, as touch does, and the comparison of that pointer with itself leads to the second
     * branch; or value is new to the heap. Heap order is restored unless a key changed in place
     * comes before its parent. No callback is made for a value that stays where it was put, so its
     * heap_id is right exactly when it already was, or when its key is out of order there.
     */
    method Update(id: nat, value: ListNode)
      requires |keys| == size == |elems| && id < size && Ordered(keys) && BackIndexed(null)
      requires if heap[id] == value then Slots(keys, id) else Slots(keys, -1) && value !in elems
      modifies this, heap, elems`heapId, value`heapId
      ensures Slots(keys, -1) && BackIndexed(value) && (Valid() <==> Ordered(keys) && BackIndexed(null))
      ensures size == old(size) == |elems| && elems == old(elems) - {old(heap[id])} + {value}
      ensures Ordered(keys) <==>
                !(old(heap[id]) == value && id > 0 && Less(value.lastAccess, old(keys)[Parent(id)]))
      ensures BackIndexed(null) <==>
                old(value.heapId) == id || OutOfOrder(old(keys)[id := value.lastAccess], id)
      ensures Ordered(keys) ==> (heap[id] != value <==> OutOfOrder(old(keys)[id := value.lastAccess], id))
      ensures !BackIndexed(null) ==> heap[id] == value && value.heapId == old(value.heapId)
    {
      hide Less, Ordered, OrderedBut, Bridged, BackIndexed, NoSmallerChild, OutOfOrder;
      ghost var k := value.lastAccess;
      LessIrreflexive(k);
      KnowsOwnSlot(id);
      if Less(value.lastAccess, heap[id].lastAccess) {
        Lowered(keys, id, k);
        Store(id, value);
        SiftUp(id, value);
      } else {
        if Less(k, keys[id]) {
          Lowered(keys, id, k);
        } else {
          Raised(keys, id, k);
        }
        Store(id, value);
        SiftDown(id, value);
      }
      KnowsSlot(id, value);
    }

    lemma KnowsOwnSlot(id: nat)
      requires BackIndexed(null) && id < size <= heap.Length && heap[id] != null
      ensures heap[id].heapId == id
    {
    }

    /** A value still in the slot where it was put is the only one that may not know its slot. */
    lemma KnowsSlot(id: nat, value: ListNode)
      requires Slots(keys, -1) && BackIndexed(value) && value in elems && id < size
      requires if heap[id] == value then Alone(value, id) else BackIndexed(null)
      ensures BackIndexed(null) <==> value.heapId == id || heap[id] != value
    {
    }

    /**
     * The loop of the first branch of update. It moves the key at start exactly when it comes before its
     * parent. n does not know its slot until it is swapped.
     */
    method SiftUp(start: nat, ghost n: ListNode)
      requires Slots(keys, -1) && BackIndexed(n) && Alone(n, start)
      requires OrderedBut(keys, start, -1) && Bridged(keys, start)
      modifies this`keys, heap, elems`heapId
      ensures Slots(keys, -1) && Ordered(keys) && BackIndexed(n)
      ensures if start > 0 && Less(old(keys)[start], old(keys)[Parent(start)])
              then heap[start] != n && BackIndexed(null)
              else Alone(n, start) && n.heapId == old(n.heapId)
    {
      hide BackIndexed, Less, OrderedBut, Bridged;
      var heapId: nat := start;
      while heapId > 0 && Less(heap[heapId].lastAccess, heap[Parent(heapId)].lastAccess)
        invariant Slots(keys, -1) && heapId <= start
        invariant if heapId == start
                  then keys == old(keys) && BackIndexed(n) && Alone(n, start) && n.heapId == old(n.heapId)
                  else BackIndexed(null) && heap[start] != n && Less(old(keys)[start], old(keys)[Parent(start)])
        invariant OrderedBut(keys, heapId, -1) && Bridged(keys, heapId)
      {
        SiftUpStep(keys, heapId);
        Exchange(heapId, Parent(heapId), if heapId == start then n else null);
        heapId := Parent(heapId);
      }
      SiftUpDone(keys, heapId);
      if heapId != start { KnowsToo(n); }
    }
  }

  /** A value that replaces the only element gets no callback, and its heap_id leads nowhere. */
  method StaleHeapId(a: ListNode, b: ListNode) returns (h: UpdatableHeap)
    requires a != b && b.heapId == 7
    modifies a`heapId, b`heapId
    ensures h.elems == {b} && h.size == 1 && b.heapId == 7 && !h.Valid()
  {
    h := new UpdatableHeap(1);
    h.Push(a);
    h.Update(0, b);
  }

  /** A key lowered in place below its parent stays where it is. */
  method LoweredKeyIsLost(a: ListNode, b: ListNode) returns (h: UpdatableHeap)
    requires a != b && a.lastAccess == [1] && b.lastAccess == [2]
    modifies a`heapId, b`heapId, b`lastAccess
    ensures h.elems == {a, b} && b.lastAccess == [0] && !h.Valid()
  {
    hide UpdatableHeap.Slots, UpdatableHeap.BackIndexed, Ordered, OutOfOrder;
    h := new UpdatableHeap(2);
    h.Push(a);
    h.Push(b);
    h.SecondOfTwo(a, b);
    label Lowering:
    b.lastAccess := [0];
    h.KeyOverwritten@Lowering(b);
    h.Update(1, b);
  }
}
