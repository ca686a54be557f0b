/** scripts/analyze_locality.cc: working-set windows and the reuse-gap histogram. */
module Locality {
  import opened Pages
  import opened Sequences
  import LruSpec
  import Machines
  import TraceLaws

  /** A line of the working-set file. */
  datatype Row = Row(windowSize: nat, windowIndex: nat, startAccess: nat, endAccess: nat, uniquePages: nat)

  /** Row i is numbered i, counts the distinct pages of its slice of t, and starts where row i - 1 ends. */
  ghost predicate Chained(rows: seq<Row>, w: nat, t: seq<PageId>) {
    forall i :: 0 <= i < |rows| ==>
      && rows[i].windowSize == w && rows[i].windowIndex == i
      && rows[i].startAccess == (if i == 0 then 0 else rows[i - 1].endAccess)
      && rows[i].startAccess < rows[i].endAccess <= |t|
      && rows[i].uniquePages == |Elems(t[rows[i].startAccess..rows[i].endAccess])|
  }

  ghost predicate Full(row: Row) {
    row.endAccess - row.startAccess == row.windowSize
  }

  ghost function EndOf(rows: seq<Row>): nat {
    if rows == [] then 0 else Last(rows).endAccess
  }

  /** The rows cut the whole of t into full windows, except that the last one may be shorter. */
  ghost predicate Tiling(rows: seq<Row>, w: nat, t: seq<PageId>) {
    && Chained(rows, w, t) && EndOf(rows) == |t|
    && (forall i :: 0 <= i < |rows| - 1 ==> Full(rows[i]))
    && (rows != [] ==> Last(rows).endAccess - Last(rows).startAccess <= w)
  }

  lemma ChainedLonger(rows: seq<Row>, w: nat, t: seq<PageId>, p: PageId)
    requires Chained(rows, w, t)
    ensures Chained(rows, w, t + [p])
  {
    forall i | 0 <= i < |rows|
      ensures t[rows[i].startAccess..rows[i].endAccess] == (t + [p])[rows[i].startAccess..rows[i].endAccess]
    {
    }
  }

  ghost predicate AllFull(rows: seq<Row>) {
    forall i :: 0 <= i < |rows| ==> Full(rows[i])
  }

  lemma RowAdded(rows: seq<Row>, w: nat, t: seq<PageId>, end: nat)
    requires Chained(rows, w, t) && AllFull(rows) && EndOf(rows) + w == end <= |t| && w >= 1
    ensures var row := Row(w, |rows|, EndOf(rows), end, |Elems(t[EndOf(rows)..end])|);
            Chained(rows + [row], w, t) && AllFull(rows + [row]) && EndOf(rows + [row]) == end
  {
  }

  class WindowTracker {
    const windowSize: nat
    var windowIndex: nat
    var windowStart: nat
    var pages: set<PageId>
    var out: seq<Row>

    ghost var seen: seq<PageId>    // every access so far

    ghost predicate Valid()
      reads this
    {
      && windowSize >= 1
      && Chained(out, windowSize, seen) && AllFull(out)
      && windowIndex == |out| && windowStart == EndOf(out)
      && windowStart <= |seen| <= windowStart + windowSize
      && (seen != [] ==> windowStart < |seen|)
      && pages == Elems(seen[windowStart..])
    }

    constructor (size: nat)
      requires size >= 1
      ensures Valid() && seen == [] && windowSize == size
    {
      windowSize, windowIndex, windowStart, pages, out, seen := size, 0, 0, {}, [], [];
    }

    /** A flush that would close an empty window at its own start writes nothing. */
    method Flush(currentAccess: nat)
      requires windowStart <= currentAccess
      modifies this`out, this`pages, this`windowIndex, this`windowStart
      ensures if old(pages) == {} && currentAccess == old(windowStart)
              then out == old(out) && windowIndex == old(windowIndex)
              else out == old(out) + [Row(windowSize, old(windowIndex), old(windowStart), currentAccess, |old(pages)|)]
                   && windowIndex == old(windowIndex) + 1
      ensures pages == {} && windowStart == currentAccess
    {
      if pages == {} && currentAccess == windowStart {
        return;
      }
      out := out + [Row(windowSize, windowIndex, windowStart, currentAccess, |pages|)];
      pages := {};
      windowIndex := windowIndex + 1;
      windowStart := currentAccess;
    }

    /** Accesses are observed one after the other. */
    method Observe(accessIndex: nat, pageId: PageId)
      requires Valid() && accessIndex == |seen|
      modifies this
      ensures Valid() && seen == old(seen) + [pageId]
    {
      hide Chained, AllFull;
      ChainedLonger(out, windowSize, seen, pageId);
      ghost var t := seen + [pageId];
      assert seen[windowStart..] == t[windowStart..accessIndex];
      while accessIndex >= windowStart + windowSize
        invariant windowStart <= accessIndex <= windowStart + windowSize
        invariant Chained(out, windowSize, t) && AllFull(out)
        invariant windowIndex == |out| && windowStart == EndOf(out) && pages == Elems(t[windowStart..accessIndex])
        decreases accessIndex - windowStart
      {
        RowAdded(out, windowSize, t, windowStart + windowSize);
        Flush(windowStart + windowSize);
        assert t[windowStart..accessIndex] == [];
      }
      assert t[windowStart..] == t[windowStart..accessIndex] + [pageId];
      ElemsSnoc(t[windowStart..accessIndex], pageId);
      pages := pages + {pageId};
      seen := t;
    }

    /** Closes the last window. */
    method Finish(totalAccesses: nat)
      requires Valid() && totalAccesses == |seen|
      modifies this
      ensures Tiling(out, windowSize, seen) && seen == old(seen)
    {
      assert seen[windowStart..] == seen[windowStart..totalAccesses];
      assert seen != [] ==> Last(seen) in seen[windowStart..];
      Flush(totalAccesses);
    }
  }

  // ----- Reuse gaps -----

  /** The accesses between the last access and the one before to the same page. */
  ghost function Gap(t: seq<PageId>): nat
    requires t != [] && Last(t) in Init(t)
  {
    LruSpec.LastAccessIsLast(Init(t), Last(t));
    |Init(t)| - LruSpec.LastAccess(Init(t), Last(t)) - 1
  }

  /** Number of accesses to a page requested before, with a gap that keep selects. */
  ghost function Reuses(t: seq<PageId>, keep: nat -> bool): nat {
    if t == [] then 0
    else Reuses(Init(t), keep) + if Last(t) in Init(t) && keep(Gap(t)) then 1 else 0
  }

  ghost function Any(): nat -> bool { (g: nat) => true }

  ghost function Exactly(gap: nat): nat -> bool { (g: nat) => g == gap }

  ghost function Below(cap: nat): nat -> bool { (g: nat) => g < cap }

  /** j is the access to the page of access i that comes before it. */
  ghost predicate Prev(t: seq<PageId>, j: int, i: int) {
    0 <= j < i < |t| && t[j] == t[i] && forall m :: j < m < i ==> t[m] != t[i]
  }

  /** Access i is to a page requested before, with a number of accesses in between that keep selects. */
  ghost predicate IsReuse(t: seq<PageId>, keep: nat -> bool, i: int) {
    exists j :: Prev(t, j, i) && keep(i - j - 1)
  }

  ghost function Reused(t: seq<PageId>, keep: nat -> bool): set<int> {
    set i | 0 <= i < |t| && IsReuse(t, keep, i)
  }

  /** Reuses counts them. */
  lemma {:induction false} ReusesCounted(t: seq<PageId>, keep: nat -> bool)
    ensures Reuses(t, keep) == |Reused(t, keep)|
  {
    if t != [] {
      ReusesCounted(Init(t), keep);
      var n := |t| - 1;
      forall i
        ensures i in Reused(t, keep) <==> i in Reused(Init(t), keep) || (i == n && Last(t) in Init(t) && keep(Gap(t)))
      {
        if i == n {
          LastReuse(t, keep);
        } else {
          EarlierReuse(t, i, keep);
        }
      }
      var last := if Last(t) in Init(t) && keep(Gap(t)) then {n} else {};
      assert Reused(t, keep) == Reused(Init(t), keep) + last;
    }
  }

  lemma LastReuse(t: seq<PageId>, keep: nat -> bool)
    requires t != []
    ensures |t| - 1 in Reused(t, keep) <==> Last(t) in Init(t) && keep(Gap(t))
  {
    var n := |t| - 1;
    LruSpec.LastAccessIsLast(Init(t), Last(t));
    if Last(t) in Init(t) {
      var j := LruSpec.LastAccess(Init(t), Last(t));
      assert Prev(t, j, n) && n - j - 1 == Gap(t);
      assert t[j] == t[n];
      forall j' | Prev(t, j', n)
        ensures j' == j
      {
        assert Init(t)[j'] == Last(t);
      }
    }
  }

  lemma EarlierReuse(t: seq<PageId>, i: int, keep: nat -> bool)
    requires t != [] && i != |t| - 1
    ensures i in Reused(t, keep) <==> i in Reused(Init(t), keep)
  {
    if 0 <= i < |t| - 1 {
      forall j
        ensures Prev(t, j, i) <==> Prev(Init(t), j, i)
      {
      }
    }
  }

  /** Every access is a reuse or the first request of its page. */
  lemma {:induction false} ReusesAndUniquePages(t: seq<PageId>)
    ensures Reuses(t, Any()) + |Elems(t)| == |t|
  {
    if t != [] {
      ReusesAndUniquePages(Init(t));
      assert t == Init(t) + [Last(t)];
      ElemsSnoc(Init(t), Last(t));
      if Last(t) in Init(t) {
        assert Elems(t) == Elems(Init(t));
      } else {
        assert |Elems(t)| == |Elems(Init(t))| + 1;
      }
    }
  }

  /** The histogram's entries for gaps below cap. */
  ghost function Total(counts: map<nat, nat>, cap: nat): nat {
    if cap == 0 then 0
    else Total(counts, cap - 1) + if cap - 1 in counts then counts[cap - 1] else 0
  }

  ghost predicate Histogram(counts: map<nat, nat>, t: seq<PageId>) {
    forall g: nat :: (if g in counts then counts[g] else 0) == Reuses(t, Exactly(g))
  }

  lemma {:induction false} ReusesBelowNext(t: seq<PageId>, cap: nat)
    ensures Reuses(t, Below(cap + 1)) == Reuses(t, Below(cap)) + Reuses(t, Exactly(cap))
  {
    if t != [] { ReusesBelowNext(Init(t), cap); }
  }

  lemma {:induction false} NoReusesBelowZero(t: seq<PageId>)
    ensures Reuses(t, Below(0)) == 0
  {
    if t != [] { NoReusesBelowZero(Init(t)); }
  }

  /** Summing the histogram below cap counts the reuses with a gap below cap. */
  lemma {:induction false} TotalIsReuses(counts: map<nat, nat>, t: seq<PageId>, cap: nat)
    requires Histogram(counts, t)
    ensures Total(counts, cap) == Reuses(t, Below(cap))
  {
    if cap == 0 {
      NoReusesBelowZero(t);
    } else {
      TotalIsReuses(counts, t, cap - 1);
      ReusesBelowNext(t, cap - 1);
    }
  }

  /** A gap bounds the number of distinct pages in between, so a short one is a hit of LRU. */
  lemma ShortGapHits(cap: nat, t: seq<PageId>)
    requires t != [] && Last(t) in Init(t) && Gap(t) < cap
    ensures Last(t) in LruSpec.Run(cap, Init(t))
  {
    LruSpec.LastAccessIsLast(Init(t), Last(t));
    ElemsBound(Init(t)[LruSpec.LastAccess(Init(t), Last(t)) + 1..]);
    LruSpec.ResidentIffFewSince(cap, Init(t), Last(t));
  }

  lemma {:induction false} ElemsBound(s: seq<PageId>)
    ensures |Elems(s)| <= |s|
  {
    if s != [] {
      ElemsBound(Init(s));
      assert s == Init(s) + [Last(s)];
      ElemsSnoc(Init(s), Last(s));
    }
  }

  lemma {:induction false} HitsCoverShortReuses(cap: nat, t: seq<PageId>)
    ensures LruSpec.Hits(cap, t) >= Reuses(t, Below(cap))
  {
    if t != [] {
      HitsCoverShortReuses(cap, Init(t));
      if Last(t) in Init(t) && Gap(t) < cap { ShortGapHits(cap, t); }
    }
  }

  /** The histogram predicts a lower bound of the hits of an LRU pool of any size. */
  lemma HitsCoverHistogram(cap: nat, t: seq<PageId>, counts: map<nat, nat>)
    requires Histogram(counts, t)
    ensures LruSpec.Hits(cap, t) >= Total(counts, cap)
  {
    TotalIsReuses(counts, t, cap);
    HitsCoverShortReuses(cap, t);
  }

  /** The same for the statistics that run_trace reports on an LRU pool. */
  lemma RunnerHitsCoverHistogram(cap: nat, t: seq<PageId>, counts: map<nat, nat>)
    requires cap >= 1 && Histogram(counts, t)
    ensures TraceLaws.Count(Machines.Lru(cap, []), t).hits >= Total(counts, cap)
  {
    HitsCoverHistogram(cap, t, counts);
    TraceLaws.LruRun(cap, t);
  }

  /** last_seen leads from every page requested so far to its last access. */
  ghost predicate LastSeen(lastSeen: map<PageId, nat>, t: seq<PageId>) {
    lastSeen.Keys == Elems(t) && forall p :: p in lastSeen ==> lastSeen[p] == LruSpec.LastAccess(t, p)
  }

  lemma LastSeenNext(lastSeen: map<PageId, nat>, t: seq<PageId>, p: PageId)
    requires LastSeen(lastSeen, t)
    ensures p in lastSeen <==> p in t
    ensures LastSeen(lastSeen[p := |t|], t + [p])
    ensures p in lastSeen ==> lastSeen[p] < |t| && |t| - lastSeen[p] - 1 == Gap(t + [p])
  {
    assert Init(t + [p]) == t;
    ElemsSnoc(t, p);
    LruSpec.LastAccessIsLast(t, p);
    forall q | q in lastSeen[p := |t|]
      ensures lastSeen[p := |t|][q] == LruSpec.LastAccess(t + [p], q)
    {
    }
  }

  lemma NothingSeen()
    ensures LastSeen(map[], []) && Histogram(map[], [])
  {
  }

  lemma HistogramCounts(counts: map<nat, nat>, t: seq<PageId>)
    requires Histogram(counts, t)
    ensures forall g: nat :: (if g in counts then counts[g] else 0) == |Reused(t, Exactly(g))|
  {
    forall g: nat
      ensures (if g in counts then counts[g] else 0) == |Reused(t, Exactly(g))|
    {
      ReusesCounted(t, Exactly(g));
    }
  }

  lemma SeenPages(lastSeen: map<PageId, nat>, t: seq<PageId>)
    requires LastSeen(lastSeen, t)
    ensures |lastSeen| == |Elems(t)|
  {
  }

  /** The statements of main's loop that update last_seen, reuse_gap_counts and reuses. */
  method CountReuse(lastSeen: map<PageId, nat>, counts: map<nat, nat>, reuses: nat, page: PageId, accesses: nat,
                    ghost t: seq<PageId>)
    returns (lastSeen': map<PageId, nat>, counts': map<nat, nat>, reuses': nat)
    requires accesses == |t| && LastSeen(lastSeen, t) && Histogram(counts, t) && reuses == Reuses(t, Any())
    ensures LastSeen(lastSeen', t + [page]) && Histogram(counts', t + [page]) && reuses' == Reuses(t + [page], Any())
    ensures forall g: nat :: (if g in counts' then counts'[g] else 0) == |Reused(t + [page], Exactly(g))|
  {
    assert Init(t + [page]) == t && Last(t + [page]) == page;
    LastSeenNext(lastSeen, t, page);
    counts', reuses' := counts, reuses;
    if page in lastSeen {
      var gap := accesses - lastSeen[page] - 1;
      counts' := counts[gap := (if gap in counts then counts[gap] else 0) + 1];
      lastSeen' := lastSeen[page := accesses];
      reuses' := reuses + 1;
    } else {
      lastSeen' := lastSeen[page := accesses];
    }
    HistogramCounts(counts', t + [page]);
  }

  ghost predicate Tracking(windows: seq<WindowTracker>, t: seq<PageId>)
    reads windows
  {
    forall i :: 0 <= i < |windows| ==> windows[i].Valid() && windows[i].seen == t
  }

  method ObserveAll(windows: seq<WindowTracker>, accesses: nat, page: PageId, ghost t: seq<PageId>)
    requires Distinct(windows) && Tracking(windows, t) && accesses == |t|
    modifies windows
    ensures Tracking(windows, t + [page])
  {
    hide WindowTracker.Valid;
    var j := 0;
    while j < |windows|
      invariant 0 <= j <= |windows|
      invariant forall i :: 0 <= i < j ==> windows[i].Valid() && windows[i].seen == t + [page]
      invariant forall i :: j <= i < |windows| ==> windows[i].Valid() && windows[i].seen == t
    {
      windows[j].Observe(accesses, page);
      j := j + 1;
    }
  }

  method FinishAll(windows: seq<WindowTracker>, accesses: nat, ghost t: seq<PageId>)
    requires Distinct(windows) && Tracking(windows, t) && accesses == |t|
    modifies windows
    ensures forall i :: 0 <= i < |windows| ==> Tiling(windows[i].out, windows[i].windowSize, t)
  {
    hide WindowTracker.Valid, Tiling;
    var j := 0;
    while j < |windows|
      invariant 0 <= j <= |windows|
      invariant forall i :: 0 <= i < j ==> Tiling(windows[i].out, windows[i].windowSize, t)
      invariant forall i :: j <= i < |windows| ==> windows[i].Valid() && windows[i].seen == t
    {
      windows[j].Finish(accesses);
      j := j + 1;
    }
  }

  /** One tracker per window size. */
  method NewWindows(sizes: seq<nat>) returns (windows: seq<WindowTracker>)
    requires forall i :: 0 <= i < |sizes| ==> sizes[i] >= 1
    ensures |windows| == |sizes| && Distinct(windows) && Tracking(windows, []) && fresh(windows)
    ensures forall i :: 0 <= i < |sizes| ==> windows[i].windowSize == sizes[i]
  {
    hide WindowTracker.Valid;
    windows := [];
    while |windows| < |sizes|
      invariant |windows| <= |sizes| && Distinct(windows) && Tracking(windows, []) && fresh(windows)
      invariant forall i :: 0 <= i < |windows| ==> windows[i].windowSize == sizes[i]
      decreases |sizes| - |windows|
    {
      var window := new WindowTracker(sizes[|windows|]);
      windows := windows + [window];
    }
  }

  /** The part of main between opening the trace and printing the results. */
  method Analyze(trace: seq<PageId>, windowSizes: seq<nat>)
    returns (accesses: nat, reuses: nat, lastSeen: map<PageId, nat>, counts: map<nat, nat>, windows: seq<WindowTracker>)
    requires forall i :: 0 <= i < |windowSizes| ==> windowSizes[i] >= 1
    ensures accesses == |trace| && LastSeen(lastSeen, trace) && Histogram(counts, trace)
    ensures forall g: nat :: (if g in counts then counts[g] else 0) == |Reused(trace, Exactly(g))|
    ensures reuses == Reuses(trace, Any()) && reuses + |lastSeen| == accesses
    ensures |windows| == |windowSizes|
    ensures forall i :: 0 <= i < |windows| ==> Tiling(windows[i].out, windowSizes[i], trace)
  {
    hide Histogram, LastSeen, Distinct, Tracking, Tiling;
    NothingSeen();
    windows := NewWindows(windowSizes);
    accesses, reuses, lastSeen, counts := 0, 0, map[], map[];
    while accesses < |trace|
      invariant 0 <= accesses <= |trace| && LastSeen(lastSeen, trace[..accesses])
      invariant Histogram(counts, trace[..accesses]) && reuses == Reuses(trace[..accesses], Any())
      invariant Tracking(windows, trace[..accesses])
      decreases |trace| - accesses
    {
      ghost var t := trace[..accesses];
      var page := trace[accesses];
      lastSeen, counts, reuses := CountReuse(lastSeen, counts, reuses, page, accesses, t);
      ObserveAll(windows, accesses, page, t);
      assert trace[..accesses + 1] == t + [page];
      accesses := accesses + 1;
    }
    assert trace[..accesses] == trace;
    FinishAll(windows, accesses, trace);
    ReusesAndUniquePages(trace);
    SeenPages(lastSeen, trace);
    HistogramCounts(counts, trace);
  }
}
