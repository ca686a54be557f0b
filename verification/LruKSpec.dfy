/** LRU-K of include/lru2_policy.hh as a pure machine, and what it guarantees. */
module LruKSpec {
  import opened Sequences
  import opened Pages
  import opened AccessTimes
  import opened RecencySpec
  import LruSpec

  /**
   * res gives each resident page its last_access array; recent and saved are the recency pool,
   * with recCap == 0 standing for NullValuedRecencyStore.
   */
  datatype LruK = LruK(
    k: nat,
    cap: nat,
    grace: nat,
    seqnum: nat,
    res: map<PageId, Times>,
    recCap: nat,
    recent: seq<PageId>,
    saved: map<PageId, Times>)

  /** The arrays of all pages the policy knows, resident or remembered. */
  ghost function All(s: LruK): map<PageId, Times> { s.res + s.saved }

  ghost predicate WellTimed(a: Times, k: nat, seqnum: nat) {
    |a| == k && a != [] && Sorted(a) && 0 < Last(a) < seqnum
  }

  /** Different pages have different newest access numbers. */
  ghost predicate Apart(m: map<PageId, Times>) {
    && (forall p :: p in m ==> m[p] != [])
    && (forall p, q :: p in m && q in m && p != q ==> Last(m[p]) != Last(m[q]))
  }

  ghost predicate AllTimed(m: map<PageId, Times>, k: nat, seqnum: nat) {
    forall p :: p in m ==> WellTimed(m[p], k, seqnum)
  }

  ghost predicate Bounded(s: LruK) {
    && s.k >= 2 && s.cap >= 1 && s.seqnum >= 1
    && |s.res| <= s.cap
    && s.res.Keys !! s.saved.Keys
    && Distinct(s.recent) && |s.recent| <= s.recCap
    && s.saved.Keys == Elems(s.recent)
  }

  ghost predicate Shape(s: LruK) {
    Bounded(s) && Apart(All(s))
  }

  /** What holds of every reachable state. */
  ghost predicate Inv(s: LruK) {
    Shape(s) && AllTimed(All(s), s.k, s.seqnum)
  }

  /** Inside get, between pushing the frame of p and touching it, p may have an empty array. */
  ghost predicate InvExcept(s: LruK, p: PageId) {
    && Shape(s)
    && AllTimed(All(s) - {p}, s.k, s.seqnum)
    && p in s.res && (s.res[p] == Zeros(s.k) || WellTimed(s.res[p], s.k, s.seqnum))
  }

  ghost predicate HasRoom(s: LruK) { |s.res| < s.cap }

  /** A least array, which is what the heap pops. */
  ghost predicate IsVictim(res: map<PageId, Times>, v: PageId) {
    v in res && forall q :: q in res ==> !Less(res[q], res[v])
  }

  lemma {:induction false} VictimExists(res: map<PageId, Times>)
    requires res != map[]
    ensures exists v :: IsVictim(res, v)
    decreases |res|
  {
    var p :| p in res;
    var rest := res - {p};
    if rest == map[] {
      LessIrreflexive(res[p]);
      forall q | q in res
        ensures q == p
      {
        assert q != p ==> q in rest;
      }
      assert IsVictim(res, p);
    } else {
      VictimExists(rest);
      var v :| IsVictim(rest, v);
      LessIrreflexive(res[p]);
      if Less(res[p], res[v]) {
        LessAsymmetric(res[p], res[v]);
        forall q | q in res
          ensures !Less(res[q], res[p])
        {
          if q != p { LessTransitive(res[p], res[v], rest[q]); }
        }
        assert IsVictim(res, p);
      } else {
        forall q | q in res
          ensures !Less(res[q], res[v])
        {
          assert q != p ==> q in rest && rest[q] == res[q];
        }
        assert IsVictim(res, v);
      }
    }
  }

  ghost function Victim(res: map<PageId, Times>): (v: PageId)
    requires res != map[]
    ensures IsVictim(res, v)
  {
    VictimExists(res);
    var v :| IsVictim(res, v); v
  }

  /** Different last entries make the least array the array of one page only. */
  lemma VictimUnique(s: LruK, v: PageId)
    requires Shape(s) && IsVictim(s.res, v)
    ensures forall q :: q in s.res && q != v ==> Less(s.res[v], s.res[q])
    ensures v == Victim(s.res)
  {
    forall q | q in s.res && q != v
      ensures Less(s.res[v], s.res[q])
    {
      LessTotal(s.res[v], s.res[q]);
      assert All(s)[v] == s.res[v] && All(s)[q] == s.res[q];
    }
  }

  /** LRUKPolicy::evict_one. */
  ghost function Evict(s: LruK): LruK
    requires s.res != map[]
  {
    var v := Victim(s.res);
    var recent := LruSpec.Bump(s.recent, v, s.recCap);
    s.(res := s.res - {v}, recent := recent, saved := Remember(s.saved, recent, v, s.res[v]))
  }

  ghost function WithRoom(s: LruK): LruK
    requires HasRoom(s) || s.res != map[]
  {
    if HasRoom(s) then s else Evict(s)
  }

  /** Gives p a frame and its remembered array, if any. */
  ghost function Admit(s: LruK, p: PageId): LruK {
    s.(res := s.res[p := if p in s.saved then s.saved[p] else Zeros(s.k)],
       recent := Remove(s.recent, p),
       saved := s.saved - {p})
  }

  ghost predicate WithinGrace(s: LruK, p: PageId)
    requires p in s.res && s.res[p] != []
  {
    Last(s.res[p]) != 0 && s.seqnum - Last(s.res[p]) <= s.grace
  }

  /** LRUKPolicy::touch. */
  ghost function Touch(s: LruK, p: PageId): LruK
    requires p in s.res && s.res[p] != []
  {
    if WithinGrace(s, p) then s
    else s.(res := s.res[p := Shifted(s.res[p], s.seqnum)], seqnum := s.seqnum + 1)
  }

  /** LRUKPolicy::get, up to and including the touch of the new page. */
  ghost function Get(s: LruK, p: PageId): LruK
    requires Inv(s) && p !in s.res
  {
    WithRoomKeepsInv(s);
    AdmitKeepsInv(WithRoom(s), p);
    Touch(Admit(WithRoom(s), p), p)
  }

  ghost function Access(s: LruK, p: PageId): LruK
    requires Inv(s)
  {
    if p in s.res then
      assert All(s)[p] == s.res[p];
      Touch(s, p)
    else Get(s, p)
  }

  lemma SubmapKeeps(m: map<PageId, Times>, m': map<PageId, Times>, k: nat, seqnum: nat)
    requires forall p :: p in m' ==> p in m && m'[p] == m[p]
    ensures Apart(m) ==> Apart(m')
    ensures AllTimed(m, k, seqnum) ==> AllTimed(m', k, seqnum)
  {
  }

  lemma UpdateKeepsApart(m: map<PageId, Times>, p: PageId, a: Times)
    requires Apart(m) && a != [] && forall q :: q in m && q != p ==> Last(m[q]) != Last(a)
    ensures Apart(m[p := a])
  {
  }

  /** Eviction moves the victim's array to the store unchanged; every other page keeps its own. */
  lemma EvictKeepsArrays(s: LruK)
    requires s.res != map[] && s.res.Keys !! s.saved.Keys
    ensures forall p :: p in All(Evict(s)) ==> p in All(s) && All(Evict(s))[p] == All(s)[p]
  {
  }

  lemma RemoveKey(m: map<PageId, Times>, p: PageId)
    requires p in m
    ensures |m - {p}| == |m| - 1
  {
  }

  lemma EvictBounded(s: LruK)
    requires Bounded(s) && s.res != map[]
    ensures Bounded(Evict(s)) && |Evict(s).res| == |s.res| - 1
  {
    LruSpec.BumpDistinct(s.recent, Victim(s.res), s.recCap);
    RemoveKey(s.res, Victim(s.res));
    hide Distinct, LruSpec.Bump;
  }

  lemma EvictKeepsInv(s: LruK)
    requires Inv(s) && s.res != map[]
    ensures Inv(Evict(s)) && |Evict(s).res| == |s.res| - 1
  {
    EvictBounded(s);
    assert s.res.Keys !! s.saved.Keys;
    hide All, Apart, AllTimed, Bounded;
    EvictKeepsArrays(s);
    SubmapKeeps(All(s), All(Evict(s)), s.k, s.seqnum);
  }

  lemma AdmitArrays(s: LruK, p: PageId)
    requires p !in s.res
    ensures All(Admit(s, p)) == if p in s.saved then All(s) else All(s)[p := Zeros(s.k)]
  {
  }

  lemma AdmitKeys(s: LruK, p: PageId)
    requires p !in s.res
    ensures var s' := Admit(s, p);
            && s'.res.Keys == s.res.Keys + {p} && s'.saved.Keys == s.saved.Keys - {p} && |s'.res| == |s.res| + 1
            && s'.recent == Remove(s.recent, p) && s'.recCap == s.recCap
            && s'.k == s.k && s'.cap == s.cap && s'.seqnum == s.seqnum
  {
  }

  lemma AdmitBounded(s: LruK, p: PageId)
    requires Bounded(s) && HasRoom(s) && p !in s.res
    ensures Bounded(Admit(s, p))
  {
    hide Distinct, Remove, Elems, Admit;
    RemoveDistinct(s.recent, p);
    RemoveElems(s.recent, p);
    AdmitKeys(s, p);
  }

  lemma AdmitKeepsInv(s: LruK, p: PageId)
    requires Inv(s) && HasRoom(s) && p !in s.res
    ensures InvExcept(Admit(s, p), p)
  {
    AdmitBounded(s, p);
    AdmitArrays(s, p);
    assert Admit(s, p).res[p] == All(Admit(s, p))[p];
    assert p in s.saved <==> p in All(s);
    hide All, Bounded, Sorted;
    AdmitTimed(All(s), p, s.k, s.seqnum);
    hide Apart, AllTimed;
  }

  lemma AdmitTimed(m: map<PageId, Times>, p: PageId, k: nat, seqnum: nat)
    requires Apart(m) && AllTimed(m, k, seqnum) && k > 0
    ensures p in m ==> AllTimed(m - {p}, k, seqnum) && WellTimed(m[p], k, seqnum)
    ensures p !in m ==> Apart(m[p := Zeros(k)]) && AllTimed(m[p := Zeros(k)] - {p}, k, seqnum)
  {
  }

  lemma TouchArrays(s: LruK, p: PageId)
    requires p in s.res && s.res[p] != [] && p !in s.saved
    ensures All(Touch(s, p)) == All(s)[p := Touch(s, p).res[p]]
    ensures Touch(s, p).res.Keys == s.res.Keys
  {
  }

  lemma TouchBounded(s: LruK, p: PageId)
    requires p in s.res && s.res[p] != [] && Bounded(s)
    ensures Bounded(Touch(s, p))
  {
  }

  lemma OthersTimed(m: map<PageId, Times>, p: PageId, k: nat, seqnum: nat)
    requires AllTimed(m - {p}, k, seqnum)
    ensures forall q :: q in m && q != p ==> WellTimed(m[q], k, seqnum)
  {
    assert forall q :: q in m && q != p ==> q in m - {p};
  }

  lemma UpdateKeepsTimed(m: map<PageId, Times>, p: PageId, a: Times, k: nat, seqnum: nat)
    requires forall q :: q in m && q != p ==> WellTimed(m[q], k, seqnum)
    requires |a| == k && k > 0 && Sorted(a) && Last(a) == seqnum && seqnum > 0
    ensures AllTimed(m[p := a], k, seqnum + 1)
  {
  }

  lemma ShiftedKey(a: Times, k: nat, seqnum: nat)
    requires k > 0 && seqnum > 0 && (a == Zeros(k) || WellTimed(a, k, seqnum))
    ensures |a| == k && Sorted(a) && Last(a) < seqnum
    ensures var a' := Shifted(a, seqnum); Less(a, a') && Sorted(a') && |a'| == k && Last(a') == seqnum
  {
    TouchRaises(a, seqnum);
    ShiftedSorted(a, seqnum);
  }

  lemma OthersBelow(m: map<PageId, Times>, p: PageId, k: nat, seqnum: nat)
    requires Apart(m)
    requires forall q :: q in m && q != p ==> WellTimed(m[q], k, seqnum)
    ensures forall q :: q in m && q != p ==> Last(m[q]) < seqnum
  {
  }

  /** The array that touch shifts is sorted, ends below seqnum, and has k entries. */
  lemma TouchedKey(s: LruK, p: PageId)
    requires InvExcept(s, p)
    ensures s.k > 0 && |s.res[p]| == s.k && Sorted(s.res[p]) && Last(s.res[p]) < s.seqnum
  {
  }

  lemma TouchOutsideGrace(s: LruK, p: PageId)
    requires InvExcept(s, p) && !WithinGrace(s, p)
    ensures Apart(All(Touch(s, p))) && AllTimed(All(Touch(s, p)), s.k, s.seqnum + 1)
  {
    ShiftedKey(s.res[p], s.k, s.seqnum);
    TouchArrays(s, p);
    OthersTimed(All(s), p, s.k, s.seqnum);
    OthersBelow(All(s), p, s.k, s.seqnum);
    hide All, Less, Sorted, WellTimed, Apart, AllTimed;
    UpdateKeepsApart(All(s), p, Shifted(s.res[p], s.seqnum));
    UpdateKeepsTimed(All(s), p, Shifted(s.res[p], s.seqnum), s.k, s.seqnum);
  }

  lemma TouchWithinGrace(s: LruK, p: PageId)
    requires InvExcept(s, p) && WithinGrace(s, p)
    ensures AllTimed(All(s), s.k, s.seqnum)
  {
    OthersTimed(All(s), p, s.k, s.seqnum);
    assert All(s)[p] == s.res[p];
    assert s.res[p] != Zeros(s.k);
    hide All, Apart, Bounded;
  }

  lemma TouchKeepsInv(s: LruK, p: PageId)
    requires InvExcept(s, p)
    ensures Inv(Touch(s, p)) && Touch(s, p).res.Keys == s.res.Keys
  {
    hide All, Apart, AllTimed, WellTimed, Distinct;
    TouchedKey(s, p);
    TouchBounded(s, p);
    TouchArrays(s, p);
    if WithinGrace(s, p) {
      TouchWithinGrace(s, p);
    } else {
      TouchOutsideGrace(s, p);
    }
  }

  /** One frame is free after the eviction, and the page that is about to enter is still outside. */
  lemma WithRoomKeepsInv(s: LruK)
    requires Inv(s)
    ensures HasRoom(s) || s.res != map[]
    ensures Inv(WithRoom(s)) && HasRoom(WithRoom(s))
    ensures WithRoom(s).res.Keys <= s.res.Keys
  {
    if !HasRoom(s) {
      EvictKeepsInv(s);
    }
  }

  lemma GetWithRoom(s: LruK, p: PageId)
    requires Inv(s) && p !in s.res
    ensures HasRoom(s) || s.res != map[]
    ensures Inv(WithRoom(s)) && p !in WithRoom(s).res && Get(s, p) == Get(WithRoom(s), p)
  {
    WithRoomKeepsInv(s);
    hide Inv, Evict, Admit, Touch;
  }

  /** A resident page may have gone without a touch only inside get. */
  lemma InvIsInvExcept(s: LruK, p: PageId)
    requires Inv(s) && p in s.res
    ensures InvExcept(s, p)
  {
    assert All(s)[p] == s.res[p];
    SubmapKeeps(All(s), All(s) - {p}, s.k, s.seqnum);
  }

  /** Every access keeps the invariant. */
  lemma AccessKeepsInv(s: LruK, p: PageId)
    requires Inv(s)
    ensures Inv(Access(s, p))
  {
    hide Inv, InvExcept, Touch, Admit, WithRoom;
    if p in s.res {
      InvIsInvExcept(s, p);
      TouchKeepsInv(s, p);
    } else {
      WithRoomKeepsInv(s);
      AdmitKeepsInv(WithRoom(s), p);
      TouchKeepsInv(Admit(WithRoom(s), p), p);
    }
  }

  lemma AccessKeepsParameters(s: LruK, p: PageId)
    requires Inv(s)
    ensures var s' := Access(s, p);
            s'.k == s.k && s'.cap == s.cap && s'.grace == s.grace && s'.recCap == s.recCap
  {
    hide Inv, Remove, Zeros, Shifted, LruSpec.Bump, Remember;
  }

  lemma StartKeepsInv(k: nat, c: nat, grace: nat, recCap: nat)
    requires k >= 2 && c >= 1
    ensures Inv(Start(k, c, grace, recCap))
  {
  }

  ghost function Start(k: nat, c: nat, grace: nat, recCap: nat): LruK {
    LruK(k, c, grace, 1, map[], recCap, [], map[])
  }

  /** The state after a trace on a fresh pool of c frames. */
  ghost function Run(k: nat, c: nat, grace: nat, recCap: nat, t: seq<PageId>): (s: LruK)
    requires k >= 2 && c >= 1
    ensures Inv(s) && s.k == k && s.cap == c && s.grace == grace && s.recCap == recCap
  {
    if t == [] then
      StartKeepsInv(k, c, grace, recCap);
      Start(k, c, grace, recCap)
    else
      var s := Run(k, c, grace, recCap, Init(t));
      AccessKeepsInv(s, Last(t));
      AccessKeepsParameters(s, Last(t));
      hide Access, Inv;
      Access(s, Last(t))
  }
}
