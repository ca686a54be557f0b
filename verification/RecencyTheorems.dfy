/** Which records a recency pool still has, told from the evictions and entries alone. */
module RecencyTheorems {
  import opened Pages
  import opened Sequences
  import LruSpec

  /** A page leaves the buffer pool and is inserted, or enters it and its record, if any, is taken. */
  datatype Event = Out(page: PageId) | In(page: PageId)

  /** The keys of a recency pool of cap nodes after these events. */
  ghost function Store(cap: nat, es: seq<Event>): seq<PageId> {
    if es == [] then []
    else match Last(es)
      case Out(v) => LruSpec.Bump(Store(cap, Init(es)), v, cap)
      case In(q) => Remove(Store(cap, Init(es)), q)
  }

  /** The pages that left after p last did, and are still out. */
  ghost function Newer(es: seq<Event>, p: PageId): set<PageId> {
    if es == [] then {}
    else match Last(es)
      case Out(v) => if v == p then {} else Newer(Init(es), p) + {v}
      case In(q) => Newer(Init(es), p) - {q}
  }

  /** p is out, and at every moment since it left, fewer than cap pages that left after it were out. */
  ghost predicate FewNewer(cap: nat, es: seq<Event>, p: PageId) {
    es != [] &&
    match Last(es)
    case Out(v) => |Newer(es, p)| < cap && (v != p ==> FewNewer(cap, Init(es), p))
    case In(q) => q != p && FewNewer(cap, Init(es), p)
  }

  /** The elements of s in front of p. */
  ghost function Front(s: seq<PageId>, p: PageId): set<PageId>
    requires p in s
  {
    Elems(s[..IndexOf(s, p)])
  }

  lemma FrontAt(s: seq<PageId>, p: PageId, k: nat)
    requires Distinct(s) && k < |s| && s[k] == p
    ensures IndexOf(s, p) == k && Front(s, p) == Elems(s[..k]) && |Front(s, p)| == k
  {
    DistinctSize(s[..k]);
  }

  lemma FrontCons(s: seq<PageId>, v: PageId, p: PageId)
    requires Distinct([v] + s) && p in s
    ensures p in [v] + s && Front([v] + s, p) == {v} + Front(s, p)
  {
    var k := IndexOf(s, p);
    assert ([v] + s)[k + 1] == p && ([v] + s)[..k + 1] == [v] + s[..k];
    FrontAt([v] + s, p, k + 1);
    ElemsCons(v, s[..k]);
  }

  /** Cutting s[j] out moves the element at k, if it is behind, and takes s[j] out of what is in front. */
  lemma CutFront(s: seq<PageId>, j: nat, k: nat)
    requires Distinct(s) && j < |s| && k < |s| && j != k
    ensures var k' := if k < j then k else k - 1;
            Cut(s, j)[k'] == s[k] && Elems(Cut(s, j)[..k']) == Elems(s[..k]) - {s[j]}
  {
    if j < k {
      assert Cut(s, j)[..k - 1] == Cut(s[..k], j);
      ElemsCut(s[..k], j);
    } else {
      assert Cut(s, j)[..k] == s[..k];
    }
  }

  lemma FrontRemove(s: seq<PageId>, q: PageId, p: PageId)
    requires Distinct(s) && p in s && q != p
    ensures p in Remove(s, q) && Front(Remove(s, q), p) == Front(s, p) - {q}
  {
    hide Remove, Elems, Cut, Distinct;
    RemoveDistinct(s, q);
    var k := IndexOf(s, p);
    FrontAt(s, p, k);
    if q in s {
      var j := RemovePosition(s, q);
      CutFront(s, j, k);
      FrontAt(Cut(s, j), p, if k < j then k else k - 1);
    } else {
      RemoveAbsent(s, q);
      NotInFront(s, k, q);
    }
  }

  lemma NotInFront(s: seq<PageId>, k: nat, q: PageId)
    requires k <= |s| && q !in s
    ensures Elems(s[..k]) - {q} == Elems(s[..k])
  {
  }

  lemma FrontTake(s: seq<PageId>, n: nat, p: PageId)
    requires Distinct(s)
    ensures p in Take(s, n) <==> p in s && |Front(s, p)| < n
    ensures p in Take(s, n) ==> Front(Take(s, n), p) == Front(s, p)
  {
    if p in s {
      var k := IndexOf(s, p);
      FrontAt(s, p, k);
      if k < n {
        assert Take(s, n)[k] == p && Take(s, n)[..k] == s[..k];
        FrontAt(Take(s, n), p, k);
      }
    }
  }

  lemma OutStep(cap: nat, s: seq<PageId>, v: PageId, p: PageId)
    requires Distinct(s) && v != p
    ensures var s' := LruSpec.Bump(s, v, cap);
            && (p in s' <==> p in s && |Front(s, p) + {v}| < cap)
            && (p in s' ==> Front(s', p) == Front(s, p) + {v})
  {
    hide Remove, Take, Distinct, Front;
    RemoveDistinct(s, v);
    ElemsCons(v, Remove(s, v));
    FrontTake([v] + Remove(s, v), cap, p);
    if p in s {
      FrontRemove(s, v, p);
      FrontCons(Remove(s, v), v, p);
      assert {v} + (Front(s, p) - {v}) == Front(s, p) + {v};
    }
  }

  lemma OwnOut(cap: nat, s: seq<PageId>, p: PageId)
    requires Distinct(s)
    ensures var s' := LruSpec.Bump(s, p, cap); (p in s' <==> 0 < cap) && (p in s' ==> Front(s', p) == {})
  {
    hide Remove;
    if cap > 0 {
      var s' := LruSpec.Bump(s, p, cap);
      LruSpec.BumpDistinct(s, p, cap);
      assert s'[0] == p;
      FrontAt(s', p, 0);
    }
  }

  lemma EmptyStore(cap: nat)
    ensures Store(cap, []) == []
  {
  }

  lemma {:induction false} StoreDistinct(cap: nat, es: seq<Event>)
    ensures Distinct(Store(cap, es))
  {
    if es != [] {
      StoreDistinct(cap, Init(es));
      match Last(es) {
        case Out(v) => LruSpec.BumpDistinct(Store(cap, Init(es)), v, cap);
        case In(q) => RemoveDistinct(Store(cap, Init(es)), q);
      }
    }
  }

  /** A record is kept exactly while few enough newer ones are, and those are the ones in front of it. */
  lemma {:induction false} StoredIff(cap: nat, es: seq<Event>, p: PageId)
    ensures p in Store(cap, es) <==> FewNewer(cap, es, p)
    ensures p in Store(cap, es) ==> Front(Store(cap, es), p) == Newer(es, p)
  {
    hide Remove, LruSpec.Bump, Distinct, Front;
    if es != [] {
      var s := Store(cap, Init(es));
      StoredIff(cap, Init(es), p);
      StoreDistinct(cap, Init(es));
      match Last(es) {
        case Out(v) =>
          if v == p {
            OwnOut(cap, s, p);
          } else {
            OutStep(cap, s, v, p);
          }
        case In(q) =>
          RemoveDistinct(s, q);
          if p in s && q != p { FrontRemove(s, q, p); }
      }
    }
  }
}
