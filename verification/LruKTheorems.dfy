/** What LRU-K as coded guarantees over whole traces. */
module LruKTheorems {
  import opened Sequences
  import opened Pages
  import opened AccessTimes
  import opened LruKSpec
  import opened RecencyTheorems
  import LruSpec

  /** A page keeps its array when it is resident, or when its record survives this miss's own eviction; see KnownIff. */
  ghost predicate Known(s: LruK, p: PageId)
    requires Inv(s)
  {
    p in s.res || p in WithRoom(s).saved
  }

  /**
   * The numbers of the accesses to p that count, since it last entered without a record, oldest first. An
   * access within the grace period of the one that counted last does not count, and gets no number.
   */
  ghost function History(k: nat, c: nat, grace: nat, recCap: nat, t: seq<PageId>, p: PageId): seq<nat>
    requires k >= 2 && c >= 1
  {
    if t == [] then []
    else
      var s, h := Run(k, c, grace, recCap, Init(t)), History(k, c, grace, recCap, Init(t), p);
      if Last(t) != p then h
      else if !Known(s, p) then [s.seqnum]
      else if h != [] && s.seqnum - Last(h) <= grace then h
      else h + [s.seqnum]
  }

  /** The last k numbers of h, zero padded on the left. */
  ghost function LastK(k: nat, h: seq<nat>): Times {
    seq(k, i requires 0 <= i < k => if i + |h| >= k then h[i + |h| - k] else 0)
  }

  lemma LastKPush(k: nat, h: seq<nat>, n: nat)
    requires k >= 1
    ensures LastK(k, h + [n]) == Shifted(LastK(k, h), n)
    ensures LastK(k, [n]) == Shifted(Zeros(k), n)
    ensures h != [] ==> LastK(k, h) != [] && Last(LastK(k, h)) == Last(h)
  {
  }

  /** The array with which get touches p. */
  ghost function Before(s: LruK, p: PageId): Times
    requires Inv(s)
  {
    if p in s.res then s.res[p]
    else if Known(s, p) then WithRoom(s).saved[p]
    else Zeros(s.k)
  }

  /** m' has no arrays that m does not have, except possibly at p. */
  ghost predicate Agrees(m': map<PageId, Times>, m: map<PageId, Times>, p: PageId) {
    forall q :: q in m' && q != p ==> q in m && m'[q] == m[q]
  }

  lemma AgreesUpdate(m': map<PageId, Times>, m: map<PageId, Times>, p: PageId, a: Times)
    requires Agrees(m', m, p)
    ensures Agrees(m'[p := a], m, p)
  {
  }

  /** The array a counts as recent, and a touch leaves it alone. */
  ghost predicate Recent(s: LruK, a: Times) {
    a != [] && Last(a) != 0 && s.seqnum - Last(a) <= s.grace
  }

  /** From s to s', p got the newest access number if its access counts, and no other page's array changed. */
  ghost predicate Advanced(s: LruK, s': LruK, p: PageId)
    requires Inv(s)
  {
    && Agrees(All(s'), All(s), p)
    && |Before(s, p)| == s.k && Before(s, p) != []
    && p in All(s')
    && if Recent(s, Before(s, p)) then s'.seqnum == s.seqnum && All(s')[p] == Before(s, p)
       else s'.seqnum == s.seqnum + 1 && All(s')[p] == Shifted(Before(s, p), s.seqnum)
  }

  lemma WithRoomAgrees(s: LruK, p: PageId)
    requires Inv(s)
    ensures var s1 := WithRoom(s);
            Agrees(All(s1), All(s), p) && s1.grace == s.grace && s1.seqnum == s.seqnum && s1.k == s.k
  {
    hide All, Apart, AllTimed, Distinct;
    if !HasRoom(s) { EvictKeepsArrays(s); }
  }

  /** The state in which get touches p. */
  ghost predicate Admitted(s: LruK, s2: LruK, p: PageId)
    requires Inv(s)
  {
    && InvExcept(s2, p) && s2.grace == s.grace && s2.seqnum == s.seqnum && s2.k == s.k
    && Agrees(All(s2), All(s), p)
    && s2.res[p] == Before(s, p)
  }

  lemma GetAdmits(s: LruK, p: PageId)
    requires Inv(s) && p !in s.res
    ensures Admitted(s, Admit(WithRoom(s), p), p)
  {
    hide WithRoom, All, Inv, InvExcept, Agrees;
    WithRoomKeepsInv(s);
    var s1 := WithRoom(s);
    AdmitKeepsInv(s1, p);
    WithRoomAgrees(s, p);
    AdmitArrays(s1, p);
    AgreesUpdate(All(s1), All(s), p, Zeros(s.k));
  }

  lemma TouchAdvances(s: LruK, s2: LruK, p: PageId)
    requires Inv(s) && Admitted(s, s2, p)
    ensures Advanced(s, Touch(s2, p), p)
  {
    hide All, Inv, Before, InvExcept, Touch, Shifted, Agrees, WithinGrace;
    TouchNow(s2, p);
    if !Recent(s2, s2.res[p]) {
      AgreesUpdate(All(s2), All(s), p, Shifted(s2.res[p], s.seqnum));
    }
  }

  /** What a touch does to all arrays. */
  lemma TouchNow(s: LruK, p: PageId)
    requires InvExcept(s, p)
    ensures p in s.res && |s.res[p]| == s.k && s.res[p] != [] && p in All(s) && s.res[p] == All(s)[p]
    ensures Recent(s, s.res[p]) ==> Touch(s, p) == s
    ensures !Recent(s, s.res[p]) ==>
              Touch(s, p).seqnum == s.seqnum + 1 && All(Touch(s, p)) == All(s)[p := Shifted(s.res[p], s.seqnum)]
  {
    assert All(s)[p] == s.res[p];
    TouchArrays(s, p);
  }

  lemma AccessAdvances(s: LruK, p: PageId)
    requires Inv(s)
    ensures Advanced(s, Access(s, p), p)
  {
    if p in s.res {
      InvIsInvExcept(s, p);
      assert Admitted(s, s, p);
      TouchAdvances(s, s, p);
    } else {
      hide Advanced, Inv, Admitted;
      GetAdmits(s, p);
      TouchAdvances(s, Admit(WithRoom(s), p), p);
    }
  }

  lemma BeforeIsOwnArray(s: LruK, p: PageId)
    requires Inv(s)
    ensures Known(s, p) ==> p in All(s) && Before(s, p) == All(s)[p]
    ensures !Known(s, p) ==> Before(s, p) == Zeros(s.k)
  {
    if p !in s.res && Known(s, p) {
      assert p in All(WithRoom(s)) && All(WithRoom(s))[p] == WithRoom(s).saved[p] by { WithRoomKeepsInv(s); }
      if !HasRoom(s) { EvictKeepsArrays(s); }
    }
  }

  /** The array of q is the end of its history, whose numbers start at 1 and end before the current one. */
  ghost predicate Faithful(s: LruK, h: seq<nat>, q: PageId) {
    && (q in All(s) ==> h != [] && All(s)[q] == LastK(s.k, h))
    && forall n :: n in h ==> 0 < n < s.seqnum
  }

  lemma Clock(s: LruK, p: PageId)
    requires Inv(s)
    ensures 0 < s.seqnum <= Access(s, p).seqnum
    ensures s.grace == 0 ==> Access(s, p).seqnum == s.seqnum + 1
  {
    hide All, Inv, Access, Agrees;
    AccessAdvances(s, p);
    BeforeIsOlder(s, p);
  }

  lemma BeforeIsOlder(s: LruK, p: PageId)
    requires Inv(s)
    ensures Before(s, p) != [] && Last(Before(s, p)) < s.seqnum && s.seqnum > 0
  {
    BeforeIsOwnArray(s, p);
  }

  lemma NothingIsNotRecent(s: LruK)
    ensures !Recent(s, Zeros(s.k))
  {
  }

  /** The access to q itself. */
  lemma HistoryOfAccessed(s: LruK, h: seq<nat>, h': seq<nat>, q: PageId)
    requires Inv(s) && Faithful(s, h, q)
    requires h' == if !Known(s, q) then [s.seqnum]
                   else if h != [] && s.seqnum - Last(h) <= s.grace then h else h + [s.seqnum]
    ensures Faithful(Access(s, q), h', q)
  {
    hide All, Inv, Access, LastK, Before, Known, Zeros, Shifted;
    AccessAdvances(s, q);
    BeforeIsOwnArray(s, q);
    LastKPush(s.k, h, s.seqnum);
    NothingIsNotRecent(s);
    BeforeIsOlder(s, q);
    AccessKeepsParameters(s, q);
    assert h != [] ==> Last(h) in h;
  }

  lemma HistoryOfOther(s: LruK, h: seq<nat>, p: PageId, q: PageId)
    requires Inv(s) && Faithful(s, h, q) && q != p
    ensures Faithful(Access(s, p), h, q)
  {
    hide All, Inv, Access, LastK, Before, Known;
    AccessAdvances(s, p);
    AccessKeepsParameters(s, p);
  }

  lemma {:induction false} HistoriesAreFaithful(k: nat, c: nat, grace: nat, recCap: nat, t: seq<PageId>, q: PageId)
    requires k >= 2 && c >= 1
    ensures Faithful(Run(k, c, grace, recCap, t), History(k, c, grace, recCap, t, q), q)
  {
    if t != [] {
      hide Faithful, Inv, Access, Known;
      HistoriesAreFaithful(k, c, grace, recCap, Init(t), q);
      var s, h := Run(k, c, grace, recCap, Init(t)), History(k, c, grace, recCap, Init(t), q);
      if q == Last(t) {
        HistoryOfAccessed(s, h, History(k, c, grace, recCap, t, q), q);
      } else {
        HistoryOfOther(s, h, Last(t), q);
      }
    }
  }

  /** Every array holds the last K accesses that counted since the page last entered without a record. */
  lemma ArraysAreHistories(k: nat, c: nat, grace: nat, recCap: nat, t: seq<PageId>, q: PageId)
    requires k >= 2 && c >= 1 && q in All(Run(k, c, grace, recCap, t))
    ensures var h := History(k, c, grace, recCap, t, q);
            h != [] && All(Run(k, c, grace, recCap, t))[q] == LastK(k, h)
  {
    hide All, LastK, Run, History;
    HistoriesAreFaithful(k, c, grace, recCap, t, q);
  }

  /** Without a grace period every access counts, and is numbered by its position in the trace. */
  lemma {:induction false} NumbersWithoutGrace(k: nat, c: nat, recCap: nat, t: seq<PageId>)
    requires k >= 2 && c >= 1
    ensures Run(k, c, 0, recCap, t).seqnum == |t| + 1
  {
    hide Inv, Access;
    if t != [] {
      NumbersWithoutGrace(k, c, recCap, Init(t));
      Clock(Run(k, c, 0, recCap, Init(t)), Last(t));
    }
  }

  lemma CountsWithoutGrace(k: nat, c: nat, recCap: nat, t: seq<PageId>, p: PageId)
    requires k >= 2 && c >= 1
    ensures var h := History(k, c, 0, recCap, t, p);
            History(k, c, 0, recCap, t + [p], p) ==
              if Known(Run(k, c, 0, recCap, t), p) then h + [|t| + 1] else [|t| + 1]
  {
    hide Inv, Access, Run, Known, All, LastK;
    assert Init(t + [p]) == t && Last(t + [p]) == p;
    NumbersWithoutGrace(k, c, recCap, t);
    HistoriesAreFaithful(k, c, 0, recCap, t, p);
    var h := History(k, c, 0, recCap, t, p);
    assert h != [] ==> Last(h) in h;
  }

  // ----- The rules of an access, told from the arrays alone -----

  /** How a touch changes the array a of its page: not within the grace period, or else a shift by one. */
  ghost predicate Counted(a: Times, a': Times, seqnum: nat, grace: nat) {
    && |a'| == |a| > 0
    && if 0 < a[|a| - 1] && seqnum <= a[|a| - 1] + grace then a' == a
       else a'[|a| - 1] == seqnum && forall i :: 0 <= i < |a| - 1 ==> a'[i] == a[i + 1]
  }

  lemma TouchCounts(s: LruK, p: PageId)
    requires p in s.res && s.res[p] != []
    ensures var s', a := Touch(s, p), s.res[p];
            && p in s'.res && Counted(a, s'.res[p], s.seqnum, s.grace)
            && s'.seqnum == s.seqnum + (if 0 < a[|a| - 1] && s.seqnum <= a[|a| - 1] + s.grace then 0 else 1)
            && s'.res.Keys == s.res.Keys && (forall q :: q in s.res && q != p ==> s'.res[q] == s.res[q])
            && s'.recent == s.recent && s'.saved == s.saved
  {
  }

  /** A hit counts unless it is within the grace period, and concerns no other page. */
  lemma HitLaw(s: LruK, p: PageId)
    requires Inv(s) && p in s.res
    ensures var s', a := Access(s, p), s.res[p];
            && a != [] && p in s'.res && Counted(a, s'.res[p], s.seqnum, s.grace)
            && s'.seqnum == s.seqnum + (if s.seqnum <= a[|a| - 1] + s.grace then 0 else 1)
            && s'.res.Keys == s.res.Keys && (forall q :: q in s.res && q != p ==> s'.res[q] == s.res[q])
            && s'.recent == s.recent && s'.saved == s.saved
  {
    hide Inv, Touch, Counted;
    ResidentArray(s, p);
    TouchCounts(s, p);
  }

  lemma ResidentArray(s: LruK, p: PageId)
    requires Inv(s) && p in s.res
    ensures s.res[p] != [] && 0 < s.res[p][|s.res[p]| - 1]
  {
    hide AllTimed, Distinct, Apart, Elems;
    assert All(s)[p] == s.res[p];
    TimedAt(All(s), p, s.k, s.seqnum);
  }

  lemma TimedAt(m: map<PageId, Times>, p: PageId, k: nat, seqnum: nat)
    requires AllTimed(m, k, seqnum) && p in m
    ensures m[p] != [] && 0 < m[p][|m[p]| - 1]
  {
    hide Sorted;
    assert WellTimed(m[p], k, seqnum);
  }

  /** The eviction that makes room, when it has to. */
  lemma RoomLaw(s: LruK)
    requires Inv(s)
    ensures HasRoom(s) || s.res != map[]
    ensures var s1 := WithRoom(s);
            && s1.seqnum == s.seqnum && s1.k == s.k && s1.grace == s.grace && s1.cap == s.cap
            && if |s.res| < s.cap then s1 == s
               else Evicts(s, s1, Victim(s.res))
  {
    WithRoomKeepsInv(s);
    if !HasRoom(s) {
      VictimUnique(s, Victim(s.res));
      VictimIsSaved(s);
    }
  }

  /** From s to s1, v left, whose array comes before all others, and its array was saved if anything is. */
  ghost predicate Evicts(s: LruK, s1: LruK, v: PageId) {
    && v in s.res && s1.res == s.res - {v} && (forall q :: q in s.res && q != v ==> Less(s.res[v], s.res[q]))
    && (s.recCap > 0 ==> v in s1.saved && s1.saved[v] == s.res[v])
    && (forall q :: q in s1.saved && q != v ==> q in s.saved && s1.saved[q] == s.saved[q])
  }

  lemma VictimIsSaved(s: LruK)
    requires s.res != map[]
    ensures var s1, v := Evict(s), Victim(s.res);
            && (s.recCap > 0 ==> v in s1.saved && s1.saved[v] == s.res[v])
            && (forall q :: q in s1.saved && q != v ==> q in s.saved && s1.saved[q] == s.saved[q])
  {
    hide Remove;
    var v := Victim(s.res);
    assert s.recCap > 0 ==> LruSpec.Bump(s.recent, v, s.recCap)[0] == v;
  }

  /** A miss evicts one page exactly when the pool is full: the one whose array comes before all others. */
  lemma EvictionLaw(s: LruK, p: PageId)
    requires Inv(s) && p !in s.res
    ensures var s' := Access(s, p);
            && (|s.res| < s.cap ==> s'.res.Keys == s.res.Keys + {p})
            && (|s.res| == s.cap ==>
                  exists v :: v in s.res && s'.res.Keys == s.res.Keys - {v} + {p}
                    && (forall q :: q in s.res && q != v ==> Less(s.res[v], s.res[q]))
                    && (s.recCap > 0 ==> v in s'.saved && s'.saved[v] == s.res[v]))
  {
    hide Inv, InvExcept, WithRoom, Touch, Counted, Less, Zeros, Remove, Admit, Evicts;
    WithRoomKeepsInv(s);
    RoomLaw(s);
    var s1 := WithRoom(s);
    AdmitKeepsInv(s1, p);
    AdmitKeys(s1, p);
    TouchedKey(Admit(s1, p), p);
    TouchCounts(Admit(s1, p), p);
    if |s.res| == s.cap { VictimLeft(s, s1, Admit(s1, p), Victim(s.res), p); }
  }

  /**
   * The requested page takes over the array saved for it, if the record is still there after the
   * eviction, and starts from zeros otherwise; then the access counts. Other arrays stay as they are.
   */
  lemma MissLaw(s: LruK, p: PageId)
    requires Inv(s) && p !in s.res
    ensures var s' := Access(s, p);
            && p in s'.res && (forall q :: q in s'.res && q != p ==> q in s.res && s'.res[q] == s.res[q])
            && (forall q :: q in s'.saved && q !in s.res ==> q in s.saved && q != p && s'.saved[q] == s.saved[q])
            && (if Known(s, p) then p in s.saved && Counted(s.saved[p], s'.res[p], s.seqnum, s.grace)
                else Counted(seq(s.k, _ => 0), s'.res[p], s.seqnum, s.grace))
  {
    hide Inv, InvExcept, WithRoom, Touch, Counted, Less, Zeros, Remove, Admit;
    WithRoomKeepsInv(s);
    RoomLaw(s);
    var s1 := WithRoom(s);
    AdmitKeepsInv(s1, p);
    AdmittedArray(s, p);
    AdmittedOthers(s, s1, Admit(s1, p), if s.res == map[] then p else Victim(s.res), p);
    TouchedKey(Admit(s1, p), p);
    TouchCounts(Admit(s1, p), p);
  }

  lemma AdmittedOthers(s: LruK, s1: LruK, s2: LruK, v: PageId, p: PageId)
    requires (s1 == s || Evicts(s, s1, v)) && s2 == Admit(s1, p)
    ensures s2.res.Keys == s1.res.Keys + {p} && s2.seqnum == s1.seqnum && s2.grace == s1.grace
    ensures forall q :: q in s2.res && q != p ==> q in s.res && s2.res[q] == s.res[q]
    ensures forall q :: q in s2.saved && q !in s.res ==> q in s.saved && q != p && s2.saved[q] == s.saved[q]
  {
    hide Less, Zeros, Remove;
  }

  lemma VictimLeft(s: LruK, s1: LruK, s2: LruK, v: PageId, p: PageId)
    requires Evicts(s, s1, v) && p !in s.res && s2 == Admit(s1, p)
    ensures v in s.res && s2.res.Keys == s.res.Keys - {v} + {p}
    ensures forall q :: q in s.res && q != v ==> Less(s.res[v], s.res[q])
    ensures s.recCap > 0 ==> v in s2.saved && s2.saved[v] == s.res[v]
  {
    hide Less, Zeros, Remove;
  }

  lemma AdmittedArray(s: LruK, p: PageId)
    requires Inv(s) && p !in s.res
    ensures HasRoom(s) || s.res != map[]
    ensures var a := Admit(WithRoom(s), p).res[p];
            if Known(s, p) then p in s.saved && a == s.saved[p] else a == seq(s.k, _ => 0)
  {
    hide Inv;
    WithRoomKeepsInv(s);
    RoomLaw(s);
  }

  // ----- Which records survive -----

  /** The eviction that a miss begins with. */
  ghost function Leaving(s: LruK): seq<Event>
    requires Inv(s)
  {
    WithRoomKeepsInv(s);
    if HasRoom(s) then [] else [Out(Victim(s.res))]
  }

  /** The evictions and entries of a trace, in order. */
  ghost function Events(k: nat, c: nat, grace: nat, recCap: nat, t: seq<PageId>): seq<Event>
    requires k >= 2 && c >= 1
  {
    if t == [] then []
    else
      var s, es := Run(k, c, grace, recCap, Init(t)), Events(k, c, grace, recCap, Init(t));
      if Last(t) in s.res then es else es + Leaving(s) + [In(Last(t))]
  }

  lemma WithRoomStore(s: LruK, es: seq<Event>)
    requires Inv(s) && s.recent == Store(s.recCap, es)
    ensures HasRoom(s) || s.res != map[]
    ensures Inv(WithRoom(s)) && WithRoom(s).recent == Store(s.recCap, es + Leaving(s))
  {
    hide Inv, LruSpec.Bump;
    WithRoomKeepsInv(s);
    if HasRoom(s) {
      assert es + Leaving(s) == es;
    } else {
      assert Init(es + Leaving(s)) == es;
    }
  }

  lemma AccessStore(s: LruK, es: seq<Event>, p: PageId)
    requires Inv(s) && s.recent == Store(s.recCap, es)
    ensures Access(s, p).recent == Store(s.recCap, if p in s.res then es else es + Leaving(s) + [In(p)])
  {
    hide Inv, WithRoom, Remove, Zeros, Shifted;
    WithRoomStore(s, es);
    assert Init(es + Leaving(s) + [In(p)]) == es + Leaving(s);
  }

  lemma {:induction false} StoreOfEvents(k: nat, c: nat, grace: nat, recCap: nat, t: seq<PageId>)
    requires k >= 2 && c >= 1
    ensures Run(k, c, grace, recCap, t).recent == Store(recCap, Events(k, c, grace, recCap, t))
  {
    hide Inv, Access, Store, Leaving;
    if t == [] {
      EmptyStore(recCap);
    } else {
      StoreOfEvents(k, c, grace, recCap, Init(t));
      AccessStore(Run(k, c, grace, recCap, Init(t)), Events(k, c, grace, recCap, Init(t)), Last(t));
    }
  }

  /** A missed page finds its record iff, ever since it left, fewer than recCap that left later were out. */
  lemma KnownIff(k: nat, c: nat, grace: nat, recCap: nat, t: seq<PageId>, p: PageId)
    requires k >= 2 && c >= 1 && p !in Run(k, c, grace, recCap, t).res
    ensures var s := Run(k, c, grace, recCap, t);
            Known(s, p) <==> FewNewer(recCap, Events(k, c, grace, recCap, t) + Leaving(s), p)
  {
    hide Run, Store, FewNewer, Leaving, WithRoom, Apart, AllTimed, Distinct;
    var s, es := Run(k, c, grace, recCap, t), Events(k, c, grace, recCap, t);
    StoreOfEvents(k, c, grace, recCap, t);
    WithRoomStore(s, es);
    StoredIff(recCap, es + Leaving(s), p);
    assert p in WithRoom(s).saved <==> p in Elems(WithRoom(s).recent);
  }

  // ----- The victim -----

  /** How many of the last k accesses h has. */
  ghost function Count(k: nat, h: seq<nat>): nat {
    if |h| <= k then |h| else k
  }

  /** The oldest of them. */
  ghost function Oldest(k: nat, h: seq<nat>): nat
    requires k > 0 && h != []
  {
    h[|h| - Count(k, h)]
  }

  lemma {:induction false} LessAt(a: Times, b: Times, i: nat)
    requires i < |a| == |b| && a[..i] == b[..i] && a[i] < b[i]
    ensures Less(a, b)
  {
    if i > 0 {
      assert a[0] == a[..i][0] == b[..i][0] == b[0];
      assert a[1..][..i - 1] == a[..i][1..] == b[..i][1..] == b[1..][..i - 1];
      LessAt(a[1..], b[1..], i - 1);
    }
  }

  /** The order of zero-padded histories: fewer accesses first, then the older oldest one. */
  lemma LessHistories(k: nat, h: seq<nat>, h': seq<nat>)
    requires k > 0 && h != [] && h' != [] && (forall n :: n in h ==> n > 0) && (forall n :: n in h' ==> n > 0)
    requires Count(k, h) > Count(k, h') || (Count(k, h) == Count(k, h') && Oldest(k, h) > Oldest(k, h'))
    ensures Less(LastK(k, h'), LastK(k, h))
  {
    var i := k - Count(k, h);
    assert LastK(k, h)[i] == Oldest(k, h) && Oldest(k, h) in h;
    LessAt(LastK(k, h'), LastK(k, h), i);
  }

  /**
   * The victim's padded history comes first among the residents: no other has fewer accesses (of K), and
   * among those with as few none has an older oldest one. With K accesses this is backward K-distance.
   */
  lemma VictimRule(k: nat, c: nat, grace: nat, recCap: nat, t: seq<PageId>, q: PageId)
    requires k >= 2 && c >= 1
    requires var res := Run(k, c, grace, recCap, t).res; q in res && q != Victim(res)
    ensures var v := Victim(Run(k, c, grace, recCap, t).res);
            var h, h' := History(k, c, grace, recCap, t, v), History(k, c, grace, recCap, t, q);
            && h != [] && h' != [] && Less(LastK(k, h), LastK(k, h'))
            && Count(k, h) <= Count(k, h')
            && (Count(k, h) == Count(k, h') ==> Oldest(k, h) <= Oldest(k, h'))
  {
    hide All, LastK, History, Run, Less, Count, Oldest, Shape;
    var s := Run(k, c, grace, recCap, t);
    var v := Victim(s.res);
    VictimArray(s, q);
    HistoriesAreFaithful(k, c, grace, recCap, t, v);
    HistoriesAreFaithful(k, c, grace, recCap, t, q);
    var h, h' := History(k, c, grace, recCap, t, v), History(k, c, grace, recCap, t, q);
    LessAsymmetric(LastK(k, h), LastK(k, h'));
    if Count(k, h) > Count(k, h') || (Count(k, h) == Count(k, h') && Oldest(k, h) > Oldest(k, h')) {
      LessHistories(k, h, h');
    }
  }

  lemma VictimArray(s: LruK, q: PageId)
    requires Inv(s) && q in s.res && q != Victim(s.res)
    ensures var v := Victim(s.res);
            v in All(s) && q in All(s) && All(s)[v] == s.res[v] && All(s)[q] == s.res[q] && Less(s.res[v], s.res[q])
  {
    VictimUnique(s, Victim(s.res));
  }
}
