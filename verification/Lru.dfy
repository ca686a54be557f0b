/** The recency order of a trace, and LRU as a pure machine over it. */
module LruSpec {
  import opened Sequences
  import opened Pages

  /** One LRU access: move or insert p at the front and keep at most cap pages. */
  ghost function Bump(s: seq<PageId>, p: PageId, cap: nat): (r: seq<PageId>)
    ensures |r| <= cap
  {
    Take([p] + Remove(s, p), cap)
  }

  lemma BumpDistinct(s: seq<PageId>, p: PageId, n: nat)
    requires Distinct(s)
    ensures Distinct(Bump(s, p, n)) && |Bump(s, p, n)| <= n
    ensures forall q :: q in Bump(s, p, n) ==> q == p || q in s
  {
    RemoveDistinct(s, p);
  }

  /** The residents, most recently used first, after a trace on a pool of cap frames. */
  ghost function Run(cap: nat, t: seq<PageId>): seq<PageId> {
    if t == [] then [] else Bump(Run(cap, Init(t)), Last(t), cap)
  }

  /** The distinct pages of a trace, most recently used first. */
  ghost function Recent(t: seq<PageId>): seq<PageId> {
    if t == [] then [] else [Last(t)] + Remove(Recent(Init(t)), Last(t))
  }

  /** Index of the last access to p, or -1. */
  ghost function LastAccess(t: seq<PageId>, p: PageId): int {
    if t == [] then -1
    else if Last(t) == p then |t| - 1
    else LastAccess(Init(t), p)
  }

  lemma {:induction false} LastAccessIsLast(t: seq<PageId>, p: PageId)
    ensures p !in t <==> LastAccess(t, p) == -1
    ensures p in t ==> 0 <= LastAccess(t, p) < |t| && t[LastAccess(t, p)] == p
    ensures forall i :: LastAccess(t, p) < i < |t| && 0 <= i ==> t[i] != p
  {
    if t != [] {
      LastAccessIsLast(Init(t), p);
    }
  }

  ghost function Rank(t: seq<PageId>): PageId -> int {
    (p: PageId) => LastAccess(t, p)
  }

  /** When only p gets a new rank, above all others, taking p out or putting it in front keeps the order. */
  lemma DecreasingAfter(s: seq<PageId>, p: PageId, rank: PageId -> int, rank': PageId -> int)
    requires Decreasing(s, rank) && Distinct(s) && forall q :: q in s && q != p ==> rank'(q) == rank(q) < rank'(p)
    ensures Decreasing(Remove(s, p), rank') && Decreasing([p] + Remove(s, p), rank')
  {
    hide Remove;
    RemoveDecreasing(s, p, rank);
    RemoveDistinct(s, p);
    assert forall q :: q in Remove(s, p) ==> rank'(q) == rank(q) < rank'(p);
  }

  lemma RankOfOther(t: seq<PageId>, q: PageId)
    requires t != [] && q != Last(t)
    ensures Rank(t)(q) == Rank(Init(t))(q) < Rank(t)(Last(t))
  {
    LastAccessIsLast(Init(t), q);
  }

  /** An access to the last page of t keeps the order of all other pages and puts that page first. */
  lemma DecreasingAfterAccess(t: seq<PageId>, s: seq<PageId>)
    requires t != [] && Decreasing(s, Rank(Init(t))) && Distinct(s)
    ensures Decreasing(Remove(s, Last(t)), Rank(t))
    ensures Decreasing([Last(t)] + Remove(s, Last(t)), Rank(t))
  {
    hide Remove, Distinct, Rank, Decreasing;
    forall q | q in s && q != Last(t)
      ensures Rank(t)(q) == Rank(Init(t))(q) < Rank(t)(Last(t))
    {
      RankOfOther(t, q);
    }
    DecreasingAfter(s, Last(t), Rank(Init(t)), Rank(t));
  }

  /** Recent(t) holds exactly the pages of t, once each, by decreasing last access. */
  lemma {:induction false} RecentByLastAccess(t: seq<PageId>)
    ensures Distinct(Recent(t))
    ensures forall p :: p in Recent(t) <==> p in t
    ensures Decreasing(Recent(t), Rank(t))
  {
    if t != [] {
      RecentByLastAccess(Init(t));
      RemoveDistinct(Recent(Init(t)), Last(t));
      DecreasingAfterAccess(t, Recent(Init(t)));
      assert t == Init(t) + [Last(t)];
    }
  }

  /** Truncating before an access or only after it makes no difference. */
  lemma BumpOfTake(s: seq<PageId>, p: PageId, cap: nat)
    ensures Bump(Take(s, cap), p, cap) == Bump(s, p, cap)
  {
    if cap > 0 {
      RemoveOfTake(s, p, cap);
      assert Bump(s, p, cap) == [p] + Take(Remove(s, p), cap - 1);
      assert Bump(Take(s, cap), p, cap) == [p] + Take(Remove(Take(s, cap), p), cap - 1);
    }
  }

  /** LRU is a stack algorithm: the residents are the cap most recently used distinct pages. */
  lemma {:induction false} ResidentsAreMostRecent(cap: nat, t: seq<PageId>)
    ensures Run(cap, t) == Take(Recent(t), cap)
  {
    if t != [] {
      ResidentsAreMostRecent(cap, Init(t));
      BumpOfTake(Recent(Init(t)), Last(t), cap);
    }
  }

  /** A larger pool always holds the smaller pool's residents. */
  lemma Inclusion(cap: nat, cap': nat, t: seq<PageId>)
    requires cap <= cap'
    ensures Run(cap, t) <= Run(cap', t)
  {
    ResidentsAreMostRecent(cap, t);
    ResidentsAreMostRecent(cap', t);
  }

  /** Hits of LRU over a trace. */
  ghost function Hits(cap: nat, t: seq<PageId>): nat {
    if t == [] then 0
    else Hits(cap, Init(t)) + if Last(t) in Run(cap, Init(t)) then 1 else 0
  }

  /** No trace is served worse by a larger pool. */
  lemma {:induction false} HitsMonotone(cap: nat, cap': nat, t: seq<PageId>)
    requires cap <= cap'
    ensures Hits(cap, t) <= Hits(cap', t)
  {
    if t != [] {
      HitsMonotone(cap, cap', Init(t));
      Inclusion(cap, cap', Init(t));
    }
  }

  /** The pages accessed since the last access to p. */
  ghost function Since(t: seq<PageId>, p: PageId): set<PageId>
    requires p in t
  {
    LastAccessIsLast(t, p);
    Elems(t[LastAccess(t, p) + 1..])
  }

  /** They are the pages with a later last access. */
  lemma SinceByRank(t: seq<PageId>, p: PageId, q: PageId)
    requires p in t
    ensures q in Since(t, p) <==> Rank(t)(q) > Rank(t)(p)
  {
    hide LastAccess;
    LastAccessIsLast(t, p);
    LastAccessIsLast(t, q);
    var k := LastAccess(t, p) + 1;
    assert q in t[k..] <==> exists i :: k <= i < |t| && t[i] == q;
  }

  /** Distinct pages accessed later than p are among those. */
  lemma SinceCovers(t: seq<PageId>, p: PageId, later: seq<PageId>)
    requires p in t && Distinct(later)
    requires forall q :: q in later ==> Rank(t)(q) > Rank(t)(p)
    ensures |Since(t, p)| >= |later|
  {
    hide Since, Rank, Distinct;
    forall q | q in later
      ensures q in Since(t, p)
    {
      SinceByRank(t, p, q);
    }
    DistinctSize(later);
    SubsetSize(Elems(later), Since(t, p));
  }

  lemma AheadIsLater(t: seq<PageId>, s: seq<PageId>, k: nat)
    requires k < |s| && s[k] in t && Decreasing(s, Rank(t))
    ensures |Since(t, s[k])| >= k
  {
    hide Since, Rank;
    assert forall i :: 0 <= i < k ==> Rank(t)(s[i]) > Rank(t)(s[k]);
    SinceCovers(t, s[k], s[..k]);
  }

  /** An access to another page only adds to them. */
  lemma SinceGrows(t: seq<PageId>, p: PageId)
    requires t != [] && p in Init(t) && Last(t) != p
    ensures p in t && |Since(t, p)| >= |Since(Init(t), p)|
  {
    LastAccessIsLast(Init(t), p);
    var k := LastAccess(t, p) + 1;
    assert t[k..] == Init(t)[k..] + [Last(t)];
    ElemsSnoc(Init(t)[k..], Last(t));
    SubsetSize(Since(Init(t), p), Since(t, p));
  }

  /** The pages in front of p in recency order are those accessed since p. */
  lemma FrontIsSince(t: seq<PageId>, p: PageId)
    requires p in t && p in Recent(t)
    ensures Elems(Recent(t)[..IndexOf(Recent(t), p)]) == Since(t, p)
  {
    hide Since, Rank, Recent, Distinct, Decreasing;
    var r := Recent(t);
    var k := IndexOf(r, p);
    RecentByLastAccess(t);
    forall q
      ensures q in r[..k] <==> q in Since(t, p)
    {
      SinceByRank(t, p, q);
      if q in r {
        FrontByRank(r, Rank(t), IndexOf(r, q), k);
      } else {
        NeverRequested(t, q, p);
      }
    }
  }

  lemma NeverRequested(t: seq<PageId>, q: PageId, p: PageId)
    requires q !in t && p in t
    ensures Rank(t)(q) < Rank(t)(p)
  {
    LastAccessIsLast(t, q);
    LastAccessIsLast(t, p);
  }

  lemma FrontByRank(s: seq<PageId>, rank: PageId -> int, i: nat, k: nat)
    requires i < |s| && k < |s| && Distinct(s) && Decreasing(s, rank)
    ensures s[i] in s[..k] <==> rank(s[i]) > rank(s[k])
  {
  }

  /** A page is resident exactly when fewer than cap distinct pages were accessed since. */
  lemma ResidentIffFewSince(cap: nat, t: seq<PageId>, p: PageId)
    ensures p in Run(cap, t) <==> p in t && |Since(t, p)| < cap
  {
    var r := Recent(t);
    ResidentsAreMostRecent(cap, t);
    RecentByLastAccess(t);
    if p in t {
      var k := IndexOf(r, p);
      FrontIsSince(t, p);
      DistinctSize(r[..k]);
      assert k < cap ==> Take(r, cap)[k] == p;
    }
  }

  /** Accesses with fewer than cap distinct other pages since the previous access to the same page. */
  ghost function ShortDistances(cap: nat, t: seq<PageId>): nat {
    if t == [] then 0
    else ShortDistances(cap, Init(t)) + if Last(t) in Init(t) && |Since(Init(t), Last(t))| < cap then 1 else 0
  }

  /** The hits are exactly the accesses at a short stack distance. */
  lemma {:induction false} HitsAreShortDistances(cap: nat, t: seq<PageId>)
    ensures Hits(cap, t) == ShortDistances(cap, t)
  {
    if t != [] {
      HitsAreShortDistances(cap, Init(t));
      ResidentIffFewSince(cap, Init(t), Last(t));
    }
  }
}
