/** The replacement rules of include/arc_policy.hh as a pure machine over page sequences. */
module ArcSpec {
  import opened Sequences
  import opened Pages

  /** Each list has its most recently used page first. */
  datatype Arc = Arc(
    cap: nat,
    cold: seq<PageId>,
    hot: seq<PageId>,
    coldHist: seq<PageId>,
    hotHist: seq<PageId>,
    thres: nat)

  ghost function Resident(s: Arc): seq<PageId> { s.cold + s.hot }

  ghost function History(s: Arc): seq<PageId> { s.coldHist + s.hotHist }

  ghost function Directory(s: Arc): seq<PageId> { Resident(s) + History(s) }

  /** What holds of every reachable state. */
  ghost predicate Inv(s: Arc) {
    && s.cap >= 1
    && s.thres <= s.cap
    && Distinct(Directory(s))
    && |Resident(s)| <= s.cap
    && |s.cold| + |s.coldHist| <= s.cap
    && |Directory(s)| <= 2 * s.cap
    && (History(s) != [] ==> |Resident(s)| == s.cap)
  }

  /** The rule of replace, tie clause included: page is looked up in the history as it is at the call. */
  ghost predicate TakesCold(s: Arc, page: PageId, thres: nat) {
    s.cold != [] && (|s.cold| > thres || (|s.cold| == thres && page in s.hotHist))
  }

  /** Demotes the least recently used page of the chosen list to that list's history. */
  ghost function Replace(s: Arc, page: PageId, thres: nat): Arc
    requires TakesCold(s, page, thres) || s.hot != []
  {
    if TakesCold(s, page, thres)
    then s.(cold := Init(s.cold), coldHist := [Last(s.cold)] + s.coldHist)
    else s.(hot := Init(s.hot), hotHist := [Last(s.hot)] + s.hotHist)
  }

  ghost function Victim(s: Arc, page: PageId, thres: nat): PageId
    requires TakesCold(s, page, thres) || s.hot != []
  {
    if TakesCold(s, page, thres) then Last(s.cold) else Last(s.hot)
  }

  /** How far a hit in a history of size own moves the threshold, the other history being of size other. */
  function Delta(other: nat, own: nat): (d: nat)
    requires own > 0
    ensures if other < own then d == 1 else d >= 1 && d * own <= other < (d + 1) * own
  {
    if other >= own then other / own else 1
  }

  /** t' is t raised by other / own, rounded down, or by 1 when own is larger, but not above cap. */
  ghost predicate Raises(t: nat, t': nat, cap: nat, own: nat, other: nat) {
    && t <= t' <= cap
    && if other < own then t' - t <= 1 && (t' < cap ==> t' - t == 1)
       else (t' - t) * own <= other && (t' < cap ==> other < (t' - t + 1) * own)
  }

  /** t' is t lowered by that, but not below 0. */
  ghost predicate Lowers(t: nat, t': nat, own: nat, other: nat) {
    && t' <= t
    && if other < own then t - t' <= 1 && (t' > 0 ==> t - t' == 1)
       else (t - t') * own <= other && (t' > 0 ==> other < (t - t' + 1) * own)
  }

  lemma DeltaMoves(t: nat, cap: nat, own: nat, other: nat)
    requires own > 0
    ensures t <= cap ==> Raises(t, Min(t + Delta(other, own), cap), cap, own, other)
    ensures var d := Delta(other, own); Lowers(t, if t >= d then t - d else 0, own, other)
  {
    hide Delta;
    var d := Delta(other, own);
    Smaller(Min(t + d, cap) - t, d, own);
    Smaller(t, d, own);
  }

  lemma Smaller(r: int, d: nat, n: nat)
    ensures 0 <= r <= d ==> r * n <= d * n
  {
  }

  ghost function Min(a: nat, b: nat): nat { if a <= b then a else b }

  /** The state in which get calls replace: history record dropped, threshold adapted. */
  ghost function Prepared(s: Arc, p: PageId): Arc
    requires Inv(s)
  {
    if p in s.coldHist then
      s.(thres := Min(s.thres + Delta(|s.hotHist|, |s.coldHist|), s.cap), coldHist := Remove(s.coldHist, p))
    else if p in s.hotHist then
      var delta := Delta(|s.coldHist|, |s.hotHist|);
      s.(thres := if s.thres >= delta then s.thres - delta else 0, hotHist := Remove(s.hotHist, p))
    else if |s.cold| + |s.coldHist| == s.cap && |s.cold| < s.cap then
      s.(coldHist := Init(s.coldHist))
    else if |s.cold| < s.cap && |Directory(s)| == 2 * s.cap then
      s.(hotHist := Init(s.hotHist))
    else s
  }

  /** ARCPolicy::get for a page that is not resident. */
  ghost function Get(s: Arc, p: PageId): Arc
    requires Inv(s) && p !in Resident(s)
  {
    var s1 := Prepared(s, p);
    if p in History(s) then
      PreparedCanReplace(s, p);
      var s2 := Replace(s1, p, s1.thres);
      s2.(hot := [p] + s2.hot)
    else if |s.cold| == s.cap then
      s.(cold := [p] + Init(s.cold))
    else if |Directory(s)| >= s.cap then
      PreparedCanReplace(s, p);
      var s2 := Replace(s1, p, s1.thres);
      s2.(cold := [p] + s2.cold)
    else
      s.(cold := [p] + s.cold)
  }

  /** ARCPolicy::touch of a resident page. */
  ghost function Touch(s: Arc, p: PageId): Arc {
    s.(cold := Remove(s.cold, p), hot := [p] + Remove(s.hot, p))
  }

  ghost function Access(s: Arc, p: PageId): Arc
    requires Inv(s)
  {
    if p in Resident(s) then Touch(s, p) else Get(s, p)
  }

  /** The pool is full and a victim exists whenever get calls replace. */
  lemma PreparedCanReplace(s: Arc, p: PageId)
    requires Inv(s) && p !in Resident(s)
    requires p in History(s) || (|s.cold| != s.cap && |Directory(s)| >= s.cap)
    ensures |Resident(s)| == s.cap
    ensures var s1 := Prepared(s, p); TakesCold(s1, p, s1.thres) || s1.hot != []
  {
  }

  /** All pages of the directory, with multiplicity. */
  ghost function PageBag(s: Arc): multiset<PageId> {
    multiset(s.cold) + multiset(s.hot) + multiset(s.coldHist) + multiset(s.hotHist)
  }

  lemma DirectoryPages(s: Arc)
    ensures multiset(Directory(s)) == PageBag(s)
    ensures Distinct(Directory(s)) <==> forall x :: PageBag(s)[x] <= 1
  {
    DistinctAsMultiset(Directory(s));
  }

  lemma ReplaceKeepsPages(s: Arc, page: PageId, thres: nat)
    requires TakesCold(s, page, thres) || s.hot != []
    ensures PageBag(Replace(s, page, thres)) == PageBag(s)
  {
    if TakesCold(s, page, thres) {
      MultisetInit(s.cold);
    } else {
      MultisetInit(s.hot);
    }
  }

  lemma ReplaceMoves(s: Arc, page: PageId, thres: nat, p: PageId)
    requires (TakesCold(s, page, thres) || s.hot != []) && p !in Directory(s)
    ensures var s' := Replace(s, page, thres);
            && p !in s'.cold && p !in s'.hot && s'.thres == s.thres && s'.cap == s.cap
            && |s'.coldHist| + |s'.hotHist| == |s.coldHist| + |s.hotHist| + 1
  {
  }

  lemma HitForgetsRecord(s: Arc, p: PageId)
    requires Inv(s) && p in History(s)
    ensures PageBag(Prepared(s, p)) == PageBag(s) - multiset{p}
  {
    hide Inv, Directory, Delta;
    MultisetRemove(s.coldHist, p);
    MultisetRemove(s.hotHist, p);
  }

  lemma DropPages(s: Arc)
    ensures s.cold != [] ==> PageBag(s.(cold := Init(s.cold))) <= PageBag(s)
    ensures s.coldHist != [] ==> PageBag(s.(coldHist := Init(s.coldHist))) <= PageBag(s)
    ensures s.hotHist != [] ==> PageBag(s.(hotHist := Init(s.hotHist))) <= PageBag(s)
  {
    InitPages(s.cold);
    InitPages(s.coldHist);
    InitPages(s.hotHist);
  }

  lemma InitPages(s: seq<PageId>)
    ensures s != [] ==> multiset(Init(s)) <= multiset(s)
  {
    if s != [] { MultisetInit(s); }
  }

  lemma MissDropsPages(s: Arc, p: PageId)
    requires Inv(s) && p !in History(s)
    ensures PageBag(Prepared(s, p)) <= PageBag(s)
  {
    hide PageBag, Delta, Distinct;
    DropPages(s);
  }

  /** Before the insertion of p the directory has only lost pages, among them any record of p. */
  lemma PreparedDropsPages(s: Arc, p: PageId)
    requires Inv(s) && p !in Resident(s)
    ensures PageBag(Prepared(s, p)) <= PageBag(s) - multiset{p}
  {
    hide Prepared;
    if p in History(s) {
      HitForgetsRecord(s, p);
    } else {
      MissDropsPages(s, p);
      assert PageBag(s)[p] == 0;
    }
  }

  lemma PreparedDistinct(s: Arc, p: PageId)
    requires Inv(s) && p !in Resident(s)
    ensures Distinct(Directory(Prepared(s, p))) && p !in Directory(Prepared(s, p))
  {
    PreparedDropsPages(s, p);
    DirectoryPages(s);
    DirectoryPages(Prepared(s, p));
    hide Prepared;
    assert PageBag(Prepared(s, p))[p] == 0;
  }

  lemma PushPages(s: Arc, p: PageId)
    ensures PageBag(s.(cold := [p] + s.cold)) == PageBag(s) + multiset{p}
    ensures PageBag(s.(hot := [p] + s.hot)) == PageBag(s) + multiset{p}
  {
    assert multiset([p] + s.cold) == multiset{p} + multiset(s.cold);
    assert multiset([p] + s.hot) == multiset{p} + multiset(s.hot);
  }

  lemma GetPages(s: Arc, p: PageId)
    requires Inv(s) && p !in Resident(s)
    ensures PageBag(Get(s, p)) <= PageBag(s) - multiset{p} + multiset{p}
  {
    hide Replace, TakesCold, Distinct, PageBag, Delta;
    PreparedDropsPages(s, p);
    PushPages(s, p);
    var s1 := Prepared(s, p);
    if p in History(s) || (|s.cold| != s.cap && |Directory(s)| >= s.cap) {
      PreparedCanReplace(s, p);
      ReplaceKeepsPages(s1, p, s1.thres);
      PushPages(Replace(s1, p, s1.thres), p);
    } else if |s.cold| == s.cap {
      DropPages(s);
      PushPages(s.(cold := Init(s.cold)), p);
    }
  }

  /** One record of p's list goes when there is one; otherwise the oldest record of a full side or directory. */
  lemma PreparedSizes(s: Arc, p: PageId)
    requires Inv(s) && p !in Resident(s)
    ensures var s1 := Prepared(s, p);
            && s1.cap == s.cap && s1.thres <= s1.cap && s1.cold == s.cold && s1.hot == s.hot
            && |s1.coldHist| <= |s.coldHist| && |s1.hotHist| <= |s.hotHist|
            && (p in History(s) ==> |History(s1)| == |History(s)| - 1)
            && (p !in History(s) && |s.cold| < s.cap ==>
                  |s.cold| + |s1.coldHist| < s.cap && |Directory(s1)| < 2 * s.cap)
  {
    hide Distinct, Delta, Remove;
    RemoveSize(s.coldHist, p);
    RemoveSize(s.hotHist, p);
  }

  lemma GetSizes(s: Arc, p: PageId)
    requires Inv(s) && p !in Resident(s)
    ensures var s' := Get(s, p);
            && s'.cap == s.cap && s'.thres <= s'.cap
            && |Resident(s')| == (if |Resident(s)| < s.cap then |Resident(s)| + 1 else s.cap)
            && |s'.cold| + |s'.coldHist| <= s'.cap
            && |Directory(s')| <= 2 * s'.cap
            && (History(s') != [] ==> |Resident(s')| == s'.cap)
  {
    hide Distinct, Prepared;
    PreparedSizes(s, p);
    if p in History(s) || (|s.cold| != s.cap && |Directory(s)| >= s.cap) {
      PreparedCanReplace(s, p);
    }
  }

  lemma GetDistinct(s: Arc, p: PageId)
    requires Inv(s) && p !in Resident(s)
    ensures Distinct(Directory(Get(s, p)))
  {
    hide Get, Distinct, PageBag;
    GetPages(s, p);
    DirectoryPages(s);
    DirectoryPages(Get(s, p));
  }

  lemma GetKeepsInv(s: Arc, p: PageId)
    requires Inv(s) && p !in Resident(s)
    ensures Inv(Get(s, p))
  {
    hide Get, Distinct;
    GetSizes(s, p);
    GetDistinct(s, p);
  }

  lemma TouchPages(s: Arc, p: PageId)
    requires p in Resident(s) && PageBag(s)[p] == 1
    ensures multiset(Resident(Touch(s, p))) == multiset(Resident(s))
    ensures PageBag(Touch(s, p)) == PageBag(s)
  {
    hide Remove;
    MultisetRemove(s.cold, p);
    MultisetRemove(s.hot, p);
    assert multiset(Resident(s))[p] == 1 by {
      assert multiset(Resident(s)) == multiset(s.cold) + multiset(s.hot);
    }
    TouchBags(multiset(s.cold), multiset(s.hot), p);
  }

  lemma TouchBags(cold: multiset<PageId>, hot: multiset<PageId>, p: PageId)
    requires cold[p] + hot[p] == 1
    ensures (cold - multiset{p}) + ((hot - multiset{p}) + multiset{p}) == cold + hot
  {
  }

  lemma TouchDistinct(s: Arc, p: PageId)
    requires Distinct(Directory(s)) && p in Resident(s)
    ensures Distinct(Directory(Touch(s, p))) && multiset(Resident(Touch(s, p))) == multiset(Resident(s))
  {
    hide Distinct, Touch;
    DirectoryPages(s);
    DirectoryPages(Touch(s, p));
    assert p in multiset(s.cold) || p in multiset(s.hot);
    TouchPages(s, p);
  }

  lemma TouchKeepsInv(s: Arc, p: PageId)
    requires Inv(s) && p in Resident(s)
    ensures Inv(Touch(s, p))
    ensures multiset(Resident(Touch(s, p))) == multiset(Resident(s)) && |Resident(Touch(s, p))| == |Resident(s)|
  {
    TouchDistinct(s, p);
    hide Distinct, Remove;
    assert |multiset(Resident(Touch(s, p)))| == |Resident(Touch(s, p))|;
    RemoveSize(s.cold, p);
  }

  /** Every access keeps the invariant. */
  lemma AccessKeepsInv(s: Arc, p: PageId)
    requires Inv(s)
    ensures Inv(Access(s, p))
  {
    if p in Resident(s) {
      TouchKeepsInv(s, p);
    } else {
      GetKeepsInv(s, p);
    }
  }

  /** A directory page is on exactly one of the four lists; removing it from another one changes nothing. */
  lemma OnOneList(s: Arc, p: PageId)
    requires Inv(s) && p in Directory(s)
    ensures p !in s.cold ==> Remove(s.cold, p) == s.cold
    ensures p !in s.hot ==> Remove(s.hot, p) == s.hot
    ensures p !in s.coldHist ==> Remove(s.coldHist, p) == s.coldHist
    ensures p !in s.hotHist ==> Remove(s.hotHist, p) == s.hotHist
    ensures p in s.cold ==> p !in s.hot && p !in s.coldHist && p !in s.hotHist
    ensures p in s.hot ==> p !in s.cold && p !in s.coldHist && p !in s.hotHist
    ensures p in s.coldHist ==> p !in s.cold && p !in s.hot && p !in s.hotHist
  {
    assert PageBag(s)[p] == 1 by { DirectoryPages(s); }
    if p !in s.cold { RemoveAbsent(s.cold, p); }
    if p !in s.hot { RemoveAbsent(s.hot, p); }
    if p !in s.coldHist { RemoveAbsent(s.coldHist, p); }
    if p !in s.hotHist { RemoveAbsent(s.hotHist, p); }
  }

  lemma StartKeepsInv(c: nat, thres: nat)
    requires c >= 1 && thres <= c
    ensures Inv(Arc(c, [], [], [], [], thres))
  {
  }
}
