/** What ARC as coded guarantees over whole traces. */
module ArcTheorems {
  import opened Sequences
  import opened Pages
  import opened ArcSpec
  import LruSpec

  ghost function Start(c: nat, thres: nat): Arc { Arc(c, [], [], [], [], thres) }

  /** The state after a trace on a fresh pool of c frames. */
  ghost function Run(c: nat, thres: nat, t: seq<PageId>): (s: Arc)
    requires c >= 1 && thres <= c
    ensures Inv(s) && s.cap == c
  {
    if t == [] then
      StartKeepsInv(c, thres);
      Start(c, thres)
    else
      AccessKeepsInv(Run(c, thres, Init(t)), Last(t));
      Access(Run(c, thres, Init(t)), Last(t))
  }

  /** The record of the page is erased before replace runs, so its tie clause never decides. */
  lemma TieClauseIsDead(s: Arc, p: PageId)
    requires Inv(s) && p !in Resident(s)
    ensures var s1 := Prepared(s, p); TakesCold(s1, p, s1.thres) <==> |s1.cold| > s1.thres
  {
    PreparedDropsPages(s, p);
    assert PageBag(s)[p] <= 1 by { DirectoryPages(s); }
    assert multiset(Prepared(s, p).hotHist)[p] == 0;
  }

  // ----- The rules of an access, told from the lists alone -----

  /**
   * A miss in a full pool, unless it is that of a new page and every frame is cold: cold gives up its
   * oldest page when it is longer than the threshold that holds after the access, and hot does otherwise.
   * The page given up heads its history, and the requested page heads hot if it had a record, else cold.
   */
  lemma ReplacementLaw(s: Arc, p: PageId)
    requires Inv(s) && p !in Resident(s) && |Resident(s)| == s.cap
    requires p in History(s) || |s.cold| < s.cap
    ensures var s', known := Access(s, p), p in History(s);
            if |s.cold| > s'.thres
            then && s'.coldHist != [] && s'.coldHist[0] == s.cold[|s.cold| - 1]
                 && s'.cold == (if known then [] else [p]) + s.cold[..|s.cold| - 1]
                 && s'.hot == (if known then [p] else []) + s.hot
                 && |s'.hotHist| <= |s.hotHist|
            else && s.hot != [] && s'.hotHist != [] && s'.hotHist[0] == s.hot[|s.hot| - 1]
                 && s'.hot == (if known then [p] else []) + s.hot[..|s.hot| - 1]
                 && s'.cold == (if known then [] else [p]) + s.cold
                 && |s'.coldHist| <= |s.coldHist|
  {
    hide Distinct, Delta;
    PreparedSizes(s, p);
    PreparedCanReplace(s, p);
    TieClauseIsDead(s, p);
  }

  /** The other misses: with a free frame nothing leaves; when every frame is cold the oldest leaves for good. */
  lemma ColdMissLaw(s: Arc, p: PageId)
    requires Inv(s) && p !in Directory(s) && (|Resident(s)| < s.cap || |s.cold| == s.cap)
    ensures var s' := Access(s, p);
            && s'.cold == [p] + (if |Resident(s)| < s.cap then s.cold else s.cold[..|s.cold| - 1])
            && s'.hot == s.hot && s'.coldHist == s.coldHist && s'.hotHist == s.hotHist && s'.thres == s.thres
  {
    hide Distinct, Prepared;
  }

  /** A hit takes its page to the front of hot, and changes neither a history nor the threshold. */
  lemma HitLaw(s: Arc, p: PageId)
    requires Inv(s) && p in Resident(s)
    ensures var s' := Access(s, p);
            && s'.hot != [] && s'.hot[0] == p && s'.hot[1..] == Remove(s.hot, p) && s'.cold == Remove(s.cold, p)
            && s'.coldHist == s.coldHist && s'.hotHist == s.hotHist && s'.thres == s.thres
  {
  }

  /**
   * Hits and new pages leave the threshold alone. A record in the cold history raises it and one in the
   * hot history lowers it, by the quotient of the histories' sizes, and at least by one, within 0 and cap.
   */
  lemma ThresholdLaw(s: Arc, p: PageId)
    requires Inv(s)
    ensures var s', a, b := Access(s, p), |s.coldHist|, |s.hotHist|;
            && (p !in s.coldHist && p !in s.hotHist ==> s'.thres == s.thres)
            && (p in s.coldHist ==>
                  var r := s'.thres - s.thres;
                  && 0 <= r && s'.thres <= s.cap
                  && if b >= a then r * a <= b && (s'.thres < s.cap ==> b < (r + 1) * a)
                     else r <= 1 && (s'.thres < s.cap ==> r == 1))
            && (p in s.hotHist ==>
                  var r := s.thres - s'.thres;
                  && 0 <= r
                  && if a >= b then r * b <= a && (s'.thres > 0 ==> a < (r + 1) * b)
                     else r <= 1 && (s'.thres > 0 ==> r == 1))
  {
    hide Distinct, Remove, Replace, Directory, Delta;
    if p in Resident(s) {
      NotRecorded(s, p);
    } else if p in History(s) || (|s.cold| != s.cap && |Directory(s)| >= s.cap) {
      PreparedCanReplace(s, p);
      var s1 := Prepared(s, p);
      ReplaceKeepsThreshold(s1, p, s1.thres);
      if p in s.coldHist {
        OneHistory(s, p);
        Smaller(s1.thres - s.thres, Delta(|s.hotHist|, |s.coldHist|), |s.coldHist|);
      } else if p in s.hotHist {
        Smaller(s.thres - s1.thres, Delta(|s.coldHist|, |s.hotHist|), |s.hotHist|);
      }
    }
  }

  lemma OneHistory(s: Arc, p: PageId)
    requires Inv(s) && p in s.coldHist
    ensures p !in s.hotHist
  {
    DirectoryPages(s);
    assert PageBag(s)[p] <= 1;
  }

  lemma NotRecorded(s: Arc, p: PageId)
    requires Inv(s) && p in Resident(s)
    ensures p !in s.coldHist && p !in s.hotHist
  {
    OnOneList(s, p);
  }

  lemma ReplaceKeepsThreshold(s: Arc, page: PageId, thres: nat)
    requires TakesCold(s, page, thres) || s.hot != []
    ensures Replace(s, page, thres).thres == s.thres
  {
  }

  // ----- Recency order -----

  /** Pages seen once, and pages seen more often: each a resident list continued by its history. */
  ghost function ColdSide(s: Arc): seq<PageId> { s.cold + s.coldHist }

  ghost function HotSide(s: Arc): seq<PageId> { s.hot + s.hotHist }

  lemma ReplaceKeepsSides(s: Arc, page: PageId, thres: nat)
    requires TakesCold(s, page, thres) || s.hot != []
    ensures ColdSide(Replace(s, page, thres)) == ColdSide(s)
    ensures HotSide(Replace(s, page, thres)) == HotSide(s)
  {
  }

  lemma RemoveAppend<T>(a: seq<T>, b: seq<T>, x: T)
    ensures Remove(a + b, x) == if x in a then Remove(a, x) + b else a + Remove(b, x)
  {
    hide Remove;
    if x in a {
      var k := RemovePosition(a, x);
      assert (a + b)[..k] == a[..k] && x !in a[..k];
      RemoveAt(a + b, k);
      assert Cut(a + b, k) == Cut(a, k) + b;
    } else if x in b {
      var k := RemovePosition(b, x);
      assert (a + b)[..|a| + k] == a + b[..k] && x !in b[..k];
      RemoveAt(a + b, |a| + k);
      assert Cut(a + b, |a| + k) == a + Cut(b, k);
    } else {
      RemoveAbsent(a + b, x);
      RemoveAbsent(b, x);
    }
  }

  lemma SidesOfTouched(s: Arc, p: PageId)
    requires Inv(s) && p in Resident(s)
    ensures ColdSide(Touch(s, p)) == Remove(ColdSide(s), p)
    ensures HotSide(Touch(s, p)) == [p] + Remove(HotSide(s), p)
  {
    hide Inv, Remove;
    RemoveAppend(s.cold, s.coldHist, p);
    RemoveAppend(s.hot, s.hotHist, p);
    OnOneList(s, p);
  }

  lemma SidesOfPrepared(s: Arc, p: PageId)
    requires Inv(s) && p in History(s)
    ensures ColdSide(Prepared(s, p)) == Remove(ColdSide(s), p)
    ensures HotSide(Prepared(s, p)) == Remove(HotSide(s), p)
  {
    hide Inv, Remove, Delta, Distinct;
    OnOneList(s, p);
    RemoveAppend(s.cold, s.coldHist, p);
    RemoveAppend(s.hot, s.hotHist, p);
  }

  lemma SidesOfRecorded(s: Arc, p: PageId)
    requires Inv(s) && p !in Resident(s) && p in History(s)
    ensures ColdSide(Get(s, p)) == Remove(ColdSide(s), p)
    ensures HotSide(Get(s, p)) == [p] + Remove(HotSide(s), p)
  {
    hide Inv, Remove, Replace, Prepared, TakesCold, Resident;
    var s1 := Prepared(s, p);
    PreparedCanReplace(s, p);
    SidesOfPrepared(s, p);
    ReplaceKeepsSides(s1, p, s1.thres);
    assert HotSide(Get(s, p)) == [p] + HotSide(s1);
  }

  /**
   * A known page leaves the cold side and heads the hot side, whatever the threshold.
   */
  lemma SidesOfKnown(s: Arc, p: PageId)
    requires Inv(s) && p in Directory(s)
    ensures ColdSide(Access(s, p)) == Remove(ColdSide(s), p)
    ensures HotSide(Access(s, p)) == [p] + Remove(HotSide(s), p)
  {
    if p in Resident(s) {
      SidesOfTouched(s, p);
    } else {
      SidesOfRecorded(s, p);
    }
  }

  /**
   * A new page heads the cold side, which is then cut to cap pages; the hot side loses its
   * oldest page only when the directory is at 2 cap and the cold side gave nothing up.
   */
  lemma SidesOfNew(s: Arc, p: PageId)
    requires Inv(s) && p !in Directory(s)
    ensures ColdSide(Access(s, p)) == [p] + Take(ColdSide(s), s.cap - 1)
    ensures HotSide(Access(s, p)) ==
            if |ColdSide(s)| < s.cap && |Directory(s)| == 2 * s.cap then Init(HotSide(s)) else HotSide(s)
  {
    hide Replace, TakesCold, Distinct, Delta, Touch;
    if |s.cold| != s.cap && |Directory(s)| >= s.cap {
      var s1 := Prepared(s, p);
      PreparedCanReplace(s, p);
      ReplaceKeepsSides(s1, p, s1.thres);
      assert ColdSide(Get(s, p)) == [p] + ColdSide(s1);
      assert ColdSide(s1) == Take(ColdSide(s), s.cap - 1);
    }
  }

  /** Both sides list their pages by decreasing last access. */
  lemma {:induction false} SidesByLastAccess(c: nat, thres: nat, t: seq<PageId>)
    requires c >= 1 && thres <= c
    ensures Decreasing(ColdSide(Run(c, thres, t)), LruSpec.Rank(t))
    ensures Decreasing(HotSide(Run(c, thres, t)), LruSpec.Rank(t))
  {
    if t != [] {
      hide Inv, Access, ColdSide, HotSide, Decreasing, Distinct, Remove, Directory, LruSpec.Rank;
      var s, p := Run(c, thres, Init(t)), Last(t);
      var cold, hot := ColdSide(s), HotSide(s);
      SidesByLastAccess(c, thres, Init(t));
      SidesDistinct(s);
      LruSpec.DecreasingAfterAccess(t, cold);
      LruSpec.DecreasingAfterAccess(t, hot);
      if p in Directory(s) {
        SidesOfKnown(s, p);
      } else {
        SidesShrink(s, p);
        NewOnNoSide(s, p);
        PrefixDecreasing([p] + cold, ColdSide(Access(s, p)), LruSpec.Rank(t));
        PrefixDecreasing(hot, HotSide(Access(s, p)), LruSpec.Rank(t));
      }
    }
  }

  lemma SidesShrink(s: Arc, p: PageId)
    requires Inv(s) && p !in Directory(s)
    ensures ColdSide(Access(s, p)) <= [p] + ColdSide(s) && HotSide(Access(s, p)) <= HotSide(s)
  {
    hide Access, Distinct;
    var cold := Take(ColdSide(s), s.cap - 1);
    SidesOfNew(s, p);
    assert cold <= ColdSide(s) && [p] + cold <= [p] + ColdSide(s);
  }

  lemma SidesDistinct(s: Arc)
    requires Inv(s)
    ensures Distinct(ColdSide(s)) && Distinct(HotSide(s))
  {
    DirectoryPages(s);
    DistinctAsMultiset(ColdSide(s));
    DistinctAsMultiset(HotSide(s));
    forall x
      ensures multiset(ColdSide(s))[x] <= 1 && multiset(HotSide(s))[x] <= 1
    {
      assert PageBag(s)[x] <= 1;
    }
  }

  lemma NewOnNoSide(s: Arc, p: PageId)
    requires p !in Directory(s)
    ensures Remove(ColdSide(s), p) == ColdSide(s) && Remove(HotSide(s), p) == HotSide(s)
  {
    RemoveAbsent(ColdSide(s), p);
    RemoveAbsent(HotSide(s), p);
  }

  // ----- ARC never forgets what LRU holds -----

  /** A new page puts itself and all that precede it on its side behind which q was dropped after q. */
  lemma DroppedFromSide(t: seq<PageId>, side: seq<PageId>, k: nat)
    requires t != [] && k < |side| && side[k] in Init(t) && Last(t) !in side
    requires Distinct(side) && Decreasing(side, LruSpec.Rank(Init(t)))
    ensures side[k] in t && |LruSpec.Since(t, side[k])| >= k + 1
  {
    hide Remove, Decreasing, Distinct, LruSpec.Rank, LruSpec.Since;
    RemoveAbsent(side, Last(t));
    LruSpec.DecreasingAfterAccess(t, side);
    LruSpec.AheadIsLater(t, [Last(t)] + side, k + 1);
  }

  /** A page that a new page pushes out of the directory was followed by at least cap others. */
  lemma PushedOut(c: nat, thres: nat, t: seq<PageId>, q: PageId)
    requires c >= 1 && thres <= c && t != []
    requires q in Directory(Run(c, thres, Init(t))) && q !in Directory(Run(c, thres, t))
    ensures q in t && |LruSpec.Since(t, q)| >= c
  {
    var s, p := Run(c, thres, Init(t)), Last(t);
    SidesByLastAccess(c, thres, Init(t));
    SidesDistinct(s);
    OnSomeSide(s, q);
    OnSomeSide(Access(s, p), q);
    DirectoryWasRequested(c, thres, Init(t), q);
    if p in Directory(s) {
      SidesOfKnown(s, p);
      RemoveDistinct(ColdSide(s), p);
      RemoveDistinct(HotSide(s), p);
    } else {
      SidesOfNew(s, p);
      OnSomeSide(s, p);
      if q in ColdSide(s) {
        DroppedFromSide(t, ColdSide(s), IndexOf(ColdSide(s), q));
      } else {
        DroppedFromSide(t, HotSide(s), IndexOf(HotSide(s), q));
      }
    }
  }

  lemma {:induction false} ForgottenWasLongAgo(c: nat, thres: nat, t: seq<PageId>, q: PageId)
    requires c >= 1 && thres <= c && q in t && q !in Directory(Run(c, thres, t))
    ensures |LruSpec.Since(t, q)| >= c
  {
    var s, p := Run(c, thres, Init(t)), Last(t);
    OnSomeSide(Access(s, p), p);
    if q == p {
    } else if q in Directory(s) {
      PushedOut(c, thres, t, q);
    } else {
      ForgottenWasLongAgo(c, thres, Init(t), q);
      LruSpec.SinceGrows(t, q);
    }
  }

  /** Every hit of LRU on as many frames is a hit of ARC or a hit in its history. */
  lemma DirectoryHoldsLru(c: nat, thres: nat, t: seq<PageId>, q: PageId)
    requires c >= 1 && thres <= c && q in LruSpec.Run(c, t)
    ensures q in Directory(Run(c, thres, t))
  {
    LruSpec.ResidentIffFewSince(c, t, q);
    if q !in Directory(Run(c, thres, t)) {
      ForgottenWasLongAgo(c, thres, t, q);
    }
  }

  // ----- Frequency -----

  /** How often p was requested since it last entered the directory. */
  ghost function Seen(c: nat, thres: nat, t: seq<PageId>, p: PageId): nat
    requires c >= 1 && thres <= c
  {
    if t == [] then 0
    else if Last(t) != p then Seen(c, thres, Init(t), p)
    else if p in Directory(Run(c, thres, Init(t))) then Seen(c, thres, Init(t), p) + 1
    else 1
  }

  /** The cold side holds the pages seen once since they entered, the hot side those seen again. */
  lemma {:induction false} SidesByFrequency(c: nat, thres: nat, t: seq<PageId>, q: PageId)
    requires c >= 1 && thres <= c
    ensures q in ColdSide(Run(c, thres, t)) ==> Seen(c, thres, t, q) == 1
    ensures q in HotSide(Run(c, thres, t)) ==> Seen(c, thres, t, q) >= 2
  {
    if t != [] {
      hide Inv, Access, ColdSide, HotSide, Directory, Remove, Distinct;
      var s, p := Run(c, thres, Init(t)), Last(t);
      SidesByFrequency(c, thres, Init(t), q);
      SidesDistinct(s);
      OnSomeSide(s, p);
      RemoveDistinct(ColdSide(s), p);
      RemoveDistinct(HotSide(s), p);
      if p in Directory(s) {
        SidesOfKnown(s, p);
      } else {
        SidesOfNew(s, p);
      }
    }
  }

  lemma OnSomeSide(s: Arc, p: PageId)
    ensures p in Directory(s) <==> p in ColdSide(s) || p in HotSide(s)
  {
  }

  // ----- Scan resistance -----

  /** Continues from s over the pages u. */
  ghost function RunFrom(s: Arc, u: seq<PageId>): (s': Arc)
    requires Inv(s)
    ensures Inv(s')
    decreases |u|
  {
    if u == [] then s
    else
      AccessKeepsInv(s, u[0]);
      RunFrom(Access(s, u[0]), u[1..])
  }

  lemma {:induction false} RunAppend(c: nat, thres: nat, t: seq<PageId>, u: seq<PageId>)
    requires c >= 1 && thres <= c
    ensures Run(c, thres, t + u) == RunFrom(Run(c, thres, t), u)
    decreases |u|
  {
    if u == [] {
      assert t + u == t;
    } else {
      assert Init(t + [u[0]]) == t && Last(t + [u[0]]) == u[0];
      assert t + u == (t + [u[0]]) + u[1..];
      RunAppend(c, thres, t + [u[0]], u[1..]);
    }
  }

  /** A new page costs hot its least recently used page, and only while cold is at most the threshold. */
  lemma NewPageStep(s: Arc, p: PageId)
    requires Inv(s) && p !in Directory(s)
    ensures var s' := Access(s, p);
            && s'.thres == s.thres
            && ((s'.hot == s.hot && |s'.cold| >= |s.cold|)
                || (s.hot != [] && s'.hot == Init(s.hot) && |s.cold| <= s.thres && |s'.cold| == |s.cold| + 1))
  {
  }

  lemma AccessPages(s: Arc, p: PageId)
    requires Inv(s)
    ensures PageBag(Access(s, p)) <= PageBag(s) + multiset{p}
  {
    hide Inv, PageBag, Touch, Get;
    if p in Resident(s) {
      ResidentOnce(s, p);
      TouchPages(s, p);
    } else {
      GetPages(s, p);
    }
  }

  lemma ResidentOnce(s: Arc, p: PageId)
    requires Inv(s) && p in Resident(s)
    ensures PageBag(s)[p] == 1
  {
    DirectoryPages(s);
    assert p in multiset(s.cold) || p in multiset(s.hot);
  }

  lemma AccessDirectory(s: Arc, p: PageId, q: PageId)
    requires Inv(s) && q in Directory(Access(s, p))
    ensures q == p || q in Directory(s)
  {
    hide Access, Inv, PageBag, Directory, Distinct;
    DirectoryPages(Access(s, p));
    DirectoryPages(s);
    AccessPages(s, p);
    assert q in multiset(Directory(Access(s, p)));
  }

  /** The directory holds requested pages only. */
  lemma {:induction false} DirectoryWasRequested(c: nat, thres: nat, t: seq<PageId>, q: PageId)
    requires c >= 1 && thres <= c && q in Directory(Run(c, thres, t))
    ensures q in t
  {
    if t != [] {
      AccessDirectory(Run(c, thres, Init(t)), Last(t), q);
      if q != Last(t) {
        DirectoryWasRequested(c, thres, Init(t), q);
      }
    }
  }

  /** However long a run of new pages, hot loses at most max(0, thres + 1 - |cold|) pages, from its old end. */
  lemma {:induction false} ScanBoundFrom(s: Arc, u: seq<PageId>)
    requires Inv(s) && Distinct(u) && forall p :: p in u ==> p !in Directory(s)
    ensures var s' := RunFrom(s, u);
            && s'.thres == s.thres
            && s'.hot <= s.hot
            && |s.hot| - |s'.hot| <= if |s.cold| <= s.thres then s.thres + 1 - |s.cold| else 0
    decreases |u|
  {
    if u != [] {
      var s1 := Access(s, u[0]);
      NewPageStep(s, u[0]);
      AccessKeepsInv(s, u[0]);
      hide Access, Inv, Directory;
      forall p | p in u[1..]
        ensures p !in Directory(s1)
      {
        if p in Directory(s1) {
          AccessDirectory(s, u[0], p);
        }
      }
      ScanBoundFrom(s1, u[1..]);
    }
  }

  lemma ScanBound(c: nat, thres: nat, t: seq<PageId>, u: seq<PageId>)
    requires c >= 1 && thres <= c
    requires Distinct(u) && forall p :: p in u ==> p !in t
    ensures var s, s' := Run(c, thres, t), Run(c, thres, t + u);
            && s'.thres == s.thres
            && s'.hot <= s.hot
            && |s.hot| - |s'.hot| <= if |s.cold| <= s.thres then s.thres + 1 - |s.cold| else 0
  {
    RunAppend(c, thres, t, u);
    forall p | p in u
      ensures p !in Directory(Run(c, thres, t))
    {
      if p in Directory(Run(c, thres, t)) {
        DirectoryWasRequested(c, thres, t, p);
      }
    }
    ScanBoundFrom(Run(c, thres, t), u);
  }
}
