/** include/recency_pool.hh: a bounded map that forgets its least recently inserted key. */
module RecencyPools {
  import opened Pages
  import opened Sequences
  import opened Lists
  import opened AccessTimes
  import opened RecencySpec
  import LruSpec

  /** A mapped value; RecencyPool<void> keeps none and is used here with []. */
  datatype Entry = Entry(value: Times, node: ListNode)

  const SENTINEL: PageId := INVALID_ID

  /** Used nodes carry their keys, newest first; unused nodes follow and carry the sentinel. */
  ghost predicate Tagged(nodes: seq<ListNode>, keys: seq<PageId>)
    reads nodes`pageId
  {
    && |keys| <= |nodes|
    && forall i :: 0 <= i < |nodes| ==> nodes[i].pageId == if i < |keys| then keys[i] else SENTINEL
  }

  ghost predicate Keyed(keys: seq<PageId>, m: map<PageId, Entry>) {
    Distinct(keys) && SENTINEL !in keys && m.Keys == Elems(keys)
  }

  /** The hash map leads from each key to its node. */
  ghost predicate Indexed(nodes: seq<ListNode>, keys: seq<PageId>, m: map<PageId, Entry>) {
    |keys| <= |nodes| && forall i :: 0 <= i < |keys| ==> keys[i] in m && m[keys[i]].node == nodes[i]
  }

  lemma KeyedMove(keys: seq<PageId>, m: map<PageId, Entry>, key: PageId, e: Entry)
    requires Keyed(keys, m) && key in keys
    ensures Keyed([key] + Remove(keys, key), m[key := e])
    ensures Keyed(Remove(keys, key), m - {key})
    ensures key in m
  {
    hide Distinct, Elems, Remove;
    KeyInElems(keys, key);
    RemoveElems(keys, key);
    RemoveDistinct(keys, key);
    ElemsCons(key, Remove(keys, key));
    assert m[key := e].Keys == m.Keys + {key};
    assert (m - {key}).Keys == m.Keys - {key};
  }

  lemma KeyedKeys(keys: seq<PageId>, m: map<PageId, Entry>)
    requires Keyed(keys, m)
    ensures Distinct(keys) && SENTINEL !in keys && m.Keys == Elems(keys)
    ensures forall q :: q in m <==> q in keys
  {
  }

  lemma KeyInElems<T>(s: seq<T>, x: T)
    ensures x in Elems(s) <==> x in s
  {
  }

  lemma KeyedInsert(keys: seq<PageId>, m: map<PageId, Entry>, key: PageId, e: Entry)
    requires Keyed(keys, m) && key !in keys && key != SENTINEL
    ensures Keyed([key] + keys, m[key := e])
  {
  }

  lemma KeyedDrop(keys: seq<PageId>, m: map<PageId, Entry>)
    requires Keyed(keys, m)
    ensures |m| == |keys|
    ensures keys != [] ==> Last(keys) in m && Keyed(Init(keys), m - {Last(keys)})
  {
    DistinctSize(keys);
    assert |m.Keys| == |m|;
    if keys != [] {
      ElemsInit(keys);
      assert (m - {Last(keys)}).Keys == m.Keys - {Last(keys)};
    }
    hide Distinct;
  }

  lemma IndexedMove(nodes: seq<ListNode>, keys: seq<PageId>, m: map<PageId, Entry>, k: nat, v: Times)
    requires Indexed(nodes, keys, m) && Distinct(keys) && k < |keys|
    ensures k < |nodes| && keys[k] in m && m[keys[k]].node == nodes[k]
    ensures Indexed([nodes[k]] + Cut(nodes, k), [keys[k]] + Cut(keys, k), m[keys[k] := Entry(v, nodes[k])])
    ensures Indexed(Cut(nodes, k) + [nodes[k]], Cut(keys, k), m - {keys[k]})
  {
  }

  lemma TaggedMove(nodes: seq<ListNode>, keys: seq<PageId>, k: nat)
    requires Tagged(nodes, keys) && k < |keys|
    ensures |keys| <= |nodes|
    ensures Tagged([nodes[k]] + Cut(nodes, k), [keys[k]] + Cut(keys, k))
  {
  }

  lemma TaggedCut(nodes: seq<ListNode>, keys: seq<PageId>, k: nat)
    requires Tagged(nodes, keys) && k < |keys| && Distinct(nodes)
    ensures |keys| <= |nodes| && Tagged(Cut(nodes, k), Cut(keys, k))
    ensures forall i :: 0 <= i < |Cut(nodes, k)| ==> Cut(nodes, k)[i] != nodes[k]
  {
  }

  lemma TaggedAppend(nodes: seq<ListNode>, keys: seq<PageId>, node: ListNode)
    requires Tagged(nodes, keys) && node.pageId == SENTINEL
    ensures Tagged(nodes + [node], keys)
  {
  }

  /** The last node is unused, or every node is used and it has the oldest key. */
  lemma LastTag(nodes: seq<ListNode>, keys: seq<PageId>)
    requires Tagged(nodes, keys) && nodes != [] && SENTINEL !in keys
    ensures |keys| <= |nodes|
    ensures Last(nodes).pageId == SENTINEL <==> |keys| < |nodes|
    ensures |keys| == |nodes| ==> Last(nodes).pageId == Last(keys)
    ensures Tagged(Init(nodes), if |keys| < |nodes| then keys else Init(keys))
  {
  }

  lemma TaggedPush(node: ListNode, nodes: seq<ListNode>, keys: seq<PageId>)
    requires Tagged(nodes, keys)
    ensures Tagged([node] + nodes, [node.pageId] + keys)
  {
  }

  lemma TaggedUnused(node: ListNode, nodes: seq<ListNode>)
    requires Tagged(nodes, []) && node.pageId == SENTINEL
    ensures Tagged([node] + nodes, [])
  {
  }

  lemma NoNodes()
    ensures Tagged([], []) && Keyed([], map[])
  {
  }

  lemma LastIsNew<T>(s: seq<T>)
    requires s != [] && Distinct(s)
    ensures Last(s) !in Init(s)
  {
  }

  lemma IndexedInsert(nodes: seq<ListNode>, keys: seq<PageId>, m: map<PageId, Entry>, key: PageId, v: Times)
    requires Indexed(nodes, keys, m) && key !in keys && |keys| < |nodes|
    ensures Indexed([Last(nodes)] + Init(nodes), [key] + keys, m[key := Entry(v, Last(nodes))])
  {
  }

  lemma IndexedDrop(nodes: seq<ListNode>, keys: seq<PageId>, m: map<PageId, Entry>)
    requires Indexed(nodes, keys, m) && Distinct(keys)
    ensures keys != [] ==> Indexed(nodes, Init(keys), m - {Last(keys)})
  {
  }

  ghost function Values(m: map<PageId, Entry>): map<PageId, Times> {
    map q | q in m :: m[q].value
  }

  lemma ValuesAfterInsert(m: map<PageId, Entry>, m': map<PageId, Entry>, keys': seq<PageId>,
                             key: PageId, v: Times)
    requires m'.Keys == Elems(keys') && key in m' && m'[key].value == v
    requires forall q :: q in m' && q != key ==> q in m && m'[q].value == m[q].value
    ensures Values(m') == Remember(Values(m), keys', key, v)
  {
  }

  lemma ValuesAfterTake(m: map<PageId, Entry>, key: PageId)
    requires key in m
    ensures key in Values(m) && Values(m)[key] == m[key].value
    ensures Values(m - {key}) == Values(m) - {key}
  {
  }

  /** A key that is not remembered goes in front, and pushes the oldest out when there is no room. */
  lemma BumpNew(keys: seq<PageId>, key: PageId, cap: nat)
    requires key !in keys && |keys| <= cap && cap >= 1
    ensures LruSpec.Bump(keys, key, cap) == [key] + if |keys| < cap then keys else Init(keys)
  {
    hide Remove;
    RemoveAbsent(keys, key);
  }

  /** What entering a new key under the last node does to the keys and the map. */
  lemma NewKeyFacts(nodes: seq<ListNode>, keys: seq<PageId>, m0: map<PageId, Entry>, m: map<PageId, Entry>,
                    key: PageId, e: Entry)
    requires Keyed(keys, m) && Indexed(nodes, keys, m) && |keys| < |nodes| && e.node == Last(nodes)
    requires key !in m0 && key != SENTINEL && forall q :: q in m ==> q in m0 && m[q] == m0[q]
    ensures Keyed([key] + keys, m[key := e]) && Indexed([Last(nodes)] + Init(nodes), [key] + keys, m[key := e])
    ensures Values(m[key := e]) == Remember(Values(m0), [key] + keys, key, e.value)
  {
    hide Keyed, Indexed, Values, Remember, Distinct, Elems;
    KeyedKeys(keys, m);
    KeyedInsert(keys, m, key, e);
    IndexedInsert(nodes, keys, m, key, e.value);
    KeyedKeys([key] + keys, m[key := e]);
    ValuesAfterInsert(m0, m[key := e], [key] + keys, key, e.value);
  }

  lemma BumpFront(keys: seq<PageId>, key: PageId, cap: nat)
    requires cap >= 1
    ensures var keys' := LruSpec.Bump(keys, key, cap); keys' != [] && keys'[0] == key
  {
  }

  /** The new value is kept under its key, and every key that stays keeps its own. */
  lemma Remembered(saved: map<PageId, Times>, keys: seq<PageId>, m: map<PageId, Entry>, key: PageId, v: Times)
    requires Values(m) == Remember(saved, keys, key, v) && m.Keys == Elems(keys) && key in keys
    ensures Values(m).Keys == Elems(keys) && Values(m)[key] == v
    ensures forall q :: q in keys && q != key ==> q in saved && Values(m)[q] == saved[q]
  {
    assert forall q :: q in keys ==> q in m && q in Values(m);
  }

  class RecencyPool {
    var recentlyEvicted: map<PageId, Entry>
    const capacity: nat
    const list: List

    ghost var keys: seq<PageId>     // most recently inserted first
    ghost var cells: set<ListNode>  // all nodes of the list
    ghost var releases: nat         // how often a node released itself without telling the list

    /** The remembered values. */
    ghost function Saved(): map<PageId, Times>
      reads this
    {
      Values(recentlyEvicted)
    }

    ghost predicate Valid()
      reads this, list, cells`prev, cells`next, cells`home, cells`pageId
    {
      && cells == list.Cells() && list.Valid() && list.size == capacity + releases
      && |list.nodes| == capacity && capacity >= 1 && |keys| <= capacity
      && Tagged(list.nodes, keys)
      && Keyed(keys, recentlyEvicted)
      && Indexed(list.nodes, keys, recentlyEvicted)
    }

    constructor (cap: nat)
      requires cap >= 1
      ensures Valid() && keys == [] && Saved() == map[] && capacity == cap
      ensures fresh(list) && fresh(cells) && releases == 0
    {
      hide List.Valid, List.Linked, Distinct, Tagged, Keyed;
      recentlyEvicted := map[];
      capacity := cap;
      list := new List();
      keys, releases := [], 0;
      new;
      NoNodes();
      var i := 0;
      while i < cap
        invariant 0 <= i <= cap
        invariant list.Valid() && list.size == |list.nodes| == i && Tagged(list.nodes, [])
        invariant fresh(list) && fresh(list.Cells())
        invariant keys == [] && recentlyEvicted == map[] && releases == 0
      {
        var node := new ListNode();
        node.pageId := SENTINEL;
        ElemsCons(node, list.nodes);
        ghost var ns := list.nodes;
        list.PushFront(node);
        TaggedUnused(node, ns);
        i := i + 1;
      }
      cells := list.Cells();
    }

    lemma NotLinked(n: ListNode)
      requires Valid() && n.Detached()
      ensures n !in cells
    {
    }

    method Contains(key: PageId) returns (r: bool)
      requires Valid()
      ensures r <==> key in keys
      ensures r <==> key in Saved()
    {
      r := key in recentlyEvicted;
    }

    /** Removes key if present, puts it in front, and drops the oldest key beyond the capacity. */
    method Insert(key: PageId, value: Times)
      requires Valid() && key != SENTINEL
      modifies this, list, cells`prev, cells`next, cells`home, cells`pageId
      ensures Valid() && keys == LruSpec.Bump(old(keys), key, capacity)
      ensures Saved() == Remember(old(Saved()), keys, key, value)
      ensures cells == old(cells)
      ensures releases == old(releases) + if key in old(keys) then 1 else 0
      ensures keys != [] && keys[0] == key && Saved().Keys == Elems(keys) && Saved()[key] == value
      ensures forall q :: q in keys && q != key ==> q in old(Saved()) && Saved()[q] == old(Saved())[q]
    {
      hide List.Valid, Tagged, Indexed, Keyed, Remember, Values, Remove, Distinct, LruSpec.Bump;
      KeyedKeys(keys, recentlyEvicted);
      BumpFront(keys, key, capacity);
      ghost var saved := Saved();
      if key in recentlyEvicted {
        MoveToFront(key, value);
      } else {
        InsertNew(key, value);
      }
      KeyedKeys(keys, recentlyEvicted);
      Remembered(saved, keys, recentlyEvicted, key, value);
    }

    /** What moving the node of key to the front does to the keys, tags and map. */
    lemma MoveFacts(key: PageId, value: Times) returns (k: nat)
      requires Valid() && key in recentlyEvicted
      ensures k < |keys| <= |list.nodes| && recentlyEvicted[key].node == list.nodes[k]
      ensures Remove(keys, key) == Cut(keys, k)
      ensures var e := Entry(value, list.nodes[k]);
              && Tagged([list.nodes[k]] + Cut(list.nodes, k), [key] + Remove(keys, key))
              && Keyed([key] + Remove(keys, key), recentlyEvicted[key := e])
              && Indexed([list.nodes[k]] + Cut(list.nodes, k), [key] + Remove(keys, key), recentlyEvicted[key := e])
              && Values(recentlyEvicted[key := e]) == Remember(Saved(), [key] + Remove(keys, key), key, value)
    {
      hide Distinct, Elems, Tagged, Keyed, Indexed, Remember, Remove, Values, List.Valid, Cut;
      var m, ns := recentlyEvicted, list.nodes;
      KeyedKeys(keys, m);
      k := RemovePosition(keys, key);
      TaggedMove(ns, keys, k);
      IndexedMove(ns, keys, m, k, value);
      KeyedMove(keys, m, key, Entry(value, ns[k]));
      KeyedKeys([key] + Remove(keys, key), m[key := Entry(value, ns[k])]);
      ValuesAfterInsert(m, m[key := Entry(value, ns[k])], [key] + Remove(keys, key), key, value);
    }

    method MoveToFront(key: PageId, value: Times)
      requires Valid() && key in recentlyEvicted
      modifies this, list, cells`prev, cells`next, cells`home
      ensures Valid() && keys == LruSpec.Bump(old(keys), key, capacity)
      ensures Saved() == Remember(old(Saved()), keys, key, value)
      ensures cells == old(cells)
      ensures releases == old(releases) + 1
    {
      hide List.Valid, List.Linked, ListNode.Detached, Distinct, Elems, Tagged, Keyed, Indexed, Remember, Remove,
        Values;
      ghost var k := MoveFacts(key, value);
      var node := recentlyEvicted[key].node;
      ElemsCut(list.nodes, k);
      ElemsCons(node, Cut(list.nodes, k));
      node.Release(list, k);
      list.PushFront(node);
      recentlyEvicted := recentlyEvicted[key := Entry(value, node)];
      keys, releases := [key] + Remove(keys, key), releases + 1;
    }

    /** Unlinks the last node; when it was in use, every node was, and its key is forgotten. */
    method RecycleLast() returns (node: ListNode)
      requires Valid()
      modifies this, list, cells`prev, cells`next, cells`home
      ensures list.Valid() && list.nodes == Init(old(list.nodes))
      ensures node == Last(old(list.nodes)) && node.Detached() && node !in list.nodes
      ensures keys == if |old(keys)| < capacity then old(keys) else Init(old(keys))
      ensures Tagged(list.nodes, keys) && Keyed(keys, recentlyEvicted)
      ensures Indexed(old(list.nodes), keys, recentlyEvicted)
      ensures cells == old(cells)
      ensures forall q :: q in recentlyEvicted ==>
                q in old(recentlyEvicted) && recentlyEvicted[q] == old(recentlyEvicted)[q]
      ensures releases == old(releases) && list.size == old(list.size) - 1
    {
      hide List.Valid, List.Linked, ListNode.Detached, Distinct, Elems, Tagged, Keyed, Indexed;
      KeyedKeys(keys, recentlyEvicted);
      LastTag(list.nodes, keys);
      list.NodesDistinct();
      LastIsNew(list.nodes);
      KeyedDrop(keys, recentlyEvicted);
      IndexedDrop(list.nodes, keys, recentlyEvicted);
      node := list.PopBack();
      if node.pageId != SENTINEL {
        assert |recentlyEvicted| == capacity;
        recentlyEvicted := recentlyEvicted - {node.pageId};
        keys := Init(keys);
      }
    }

    method InsertNew(key: PageId, value: Times)
      requires Valid() && key !in recentlyEvicted && key != SENTINEL
      modifies this, list, cells`prev, cells`next, cells`home, cells`pageId
      ensures Valid() && keys == LruSpec.Bump(old(keys), key, capacity)
      ensures Saved() == Remember(old(Saved()), keys, key, value)
      ensures cells == old(cells)
      ensures releases == old(releases)
    {
      hide List.Valid, List.Linked, ListNode.Detached, Distinct, Elems, Tagged, Keyed, Indexed, Remember, Values,
        LruSpec.Bump;
      KeyedKeys(keys, recentlyEvicted);
      ghost var ns := list.nodes;
      BumpNew(keys, key, capacity);
      ElemsInit(ns);
      ElemsCons(Last(ns), Init(ns));
      var node := RecycleLast();
      NewKeyFacts(ns, keys, old(recentlyEvicted), recentlyEvicted, key, Entry(value, node));
      recentlyEvicted := recentlyEvicted[key := Entry(value, node)];
      node.pageId := key;
      TaggedPush(node, list.nodes, keys);
      list.PushFront(node);
      keys := [key] + keys;
    }

    /** What moving the node of key to the back does to the keys, tags and map. */
    lemma TakeFacts(key: PageId) returns (k: nat)
      requires Valid() && key in recentlyEvicted
      ensures k < |keys| <= |list.nodes| && recentlyEvicted[key].node == list.nodes[k] && Distinct(list.nodes)
      ensures Tagged(Cut(list.nodes, k), Remove(keys, key))
      ensures forall i :: 0 <= i < |Cut(list.nodes, k)| ==> Cut(list.nodes, k)[i] != list.nodes[k]
      ensures Keyed(Remove(keys, key), recentlyEvicted - {key}) && |Remove(keys, key)| < |keys|
      ensures Indexed(Cut(list.nodes, k) + [list.nodes[k]], Remove(keys, key), recentlyEvicted - {key})
      ensures key in Saved() && Saved()[key] == recentlyEvicted[key].value
      ensures Values(recentlyEvicted - {key}) == Saved() - {key}
    {
      hide Distinct, Elems, Tagged, Keyed, Indexed, Remove, Values, List.Valid, Cut;
      var m, ns := recentlyEvicted, list.nodes;
      KeyedKeys(keys, m);
      k := RemovePosition(keys, key);
      KeyedMove(keys, m, key, m[key]);
      IndexedMove(ns, keys, m, k, m[key].value);
      ValuesAfterTake(m, key);
      list.NodesDistinct();
      TaggedCut(ns, keys, k);
    }

    method Take(key: PageId) returns (res: Times)
      requires Valid() && key in keys
      modifies this, list, cells`prev, cells`next, cells`home, cells`pageId
      ensures Valid() && keys == Remove(old(keys), key)
      ensures key in old(Saved()) && res == old(Saved())[key] && Saved() == old(Saved()) - {key}
      ensures cells == old(cells)
      ensures releases == old(releases) + 1
    {
      hide List.Valid, List.Linked, ListNode.Detached, Distinct, Elems, Tagged, Keyed, Indexed, Remember, Remove,
        Values;
      KeyedKeys(keys, recentlyEvicted);
      ghost var ns := list.nodes;
      ghost var k := TakeFacts(key);
      ElemsCut(ns, k);
      res := recentlyEvicted[key].value;
      var node := recentlyEvicted[key].node;
      node.Release(list, k);
      node.pageId := SENTINEL;
      TaggedAppend(list.nodes, Remove(keys, key), node);
      ElemsSnoc(list.nodes, node);
      list.PushBack(node);
      recentlyEvicted := recentlyEvicted - {key};
      keys, releases := Remove(keys, key), releases + 1;
    }
  }

  /** The store that the template argument selects. */
  method NewStore(useStore: bool, cap: nat) returns (store: RecencyPool?)
    requires useStore ==> cap > 0
    ensures store != null <==> useStore
    ensures store != null ==> store.Valid() && store.capacity == cap && store.keys == [] && store.Saved() == map[]
    ensures store != null ==> fresh(store) && fresh(store.list) && fresh(store.cells)
  {
    store := null;
    if useStore {
      store := new RecencyPool(cap);
    }
  }
}
