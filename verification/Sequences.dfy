/** Facts about sequences without repetitions, shared by every list in the model. */
module Sequences {

  ghost predicate Distinct<T>(s: seq<T>) {
    forall i, j :: 0 <= i < j < |s| ==> s[i] != s[j]
  }

  ghost function Elems<T>(s: seq<T>): set<T> {
    set x | x in s
  }

  /** The first n elements, or all of them when there are fewer. */
  ghost function Take<T>(s: seq<T>, n: nat): seq<T> {
    if n < |s| then s[..n] else s
  }

  ghost function Init<T>(s: seq<T>): seq<T>
    requires s != []
  {
    s[..|s| - 1]
  }

  ghost function Last<T>(s: seq<T>): T
    requires s != []
  {
    s[|s| - 1]
  }

  /** s without its k-th element. */
  ghost function Cut<T>(s: seq<T>, k: nat): (r: seq<T>)
    requires k < |s|
    ensures |r| == |s| - 1
  {
    s[..k] + s[k + 1..]
  }

  /** s without its first occurrence of x. */
  ghost function Remove<T>(s: seq<T>, x: T): seq<T> {
    if s == [] then []
    else if s[0] == x then s[1..]
    else [s[0]] + Remove(s[1..], x)
  }

  lemma {:induction false} RemoveAt<T>(s: seq<T>, k: nat)
    requires k < |s| && s[k] !in s[..k]
    ensures Remove(s, s[k]) == Cut(s, k)
  {
    if k > 0 {
      assert s[1..][..k - 1] == s[..k][1..];
      RemoveAt(s[1..], k - 1);
      assert s[..k] == [s[0]] + s[1..][..k - 1];
    }
  }

  lemma CutLast<T>(s: seq<T>)
    requires s != []
    ensures Cut(s, |s| - 1) == Init(s)
  {
  }

  lemma RemovePosition<T>(s: seq<T>, x: T) returns (k: nat)
    requires x in s
    ensures k < |s| && s[k] == x && x !in s[..k] && Remove(s, x) == Cut(s, k)
  {
    k := IndexOf(s, x);
    RemoveAt(s, k);
  }

  lemma {:induction false} RemoveAbsent<T>(s: seq<T>, x: T)
    requires x !in s
    ensures Remove(s, x) == s
  {
    if s != [] {
      RemoveAbsent(s[1..], x);
    }
  }

  /** Position of x in s. */
  ghost function IndexOf<T>(s: seq<T>, x: T): (k: nat)
    requires x in s
    ensures k < |s| && s[k] == x && x !in s[..k]
  {
    if s[0] == x then 0 else
      assert s[0] != x;
      var k := 1 + IndexOf(s[1..], x);
      assert s[..k] == [s[0]] + s[1..][..k - 1];
      k
  }

  lemma RemoveSize<T>(s: seq<T>, x: T)
    ensures |Remove(s, x)| == if x in s then |s| - 1 else |s|
  {
  }

  lemma RemoveDistinct<T>(s: seq<T>, x: T)
    requires Distinct(s)
    ensures Distinct(Remove(s, x))
    ensures forall y :: y in Remove(s, x) <==> y in s && y != x
    ensures |Remove(s, x)| == if x in s then |s| - 1 else |s|
  {
    if x in s {
      var k := IndexOf(s, x);
      RemoveAt(s, k);
    } else {
      RemoveAbsent(s, x);
    }
  }

  lemma RemoveElems<T>(s: seq<T>, x: T)
    requires Distinct(s)
    ensures Elems(Remove(s, x)) == Elems(s) - {x}
  {
    RemoveDistinct(s, x);
    assert Elems(Remove(s, x)) == Elems(s) - {x};
  }

  lemma {:induction false} DistinctAsMultiset<T>(s: seq<T>)
    ensures Distinct(s) <==> forall x :: multiset(s)[x] <= 1
  {
    if s != [] {
      DistinctAsMultiset(Init(s));
      assert s == Init(s) + [Last(s)];
      if Distinct(s) {
        assert multiset(Init(s))[Last(s)] == 0;
      } else if Distinct(Init(s)) {
        var i, j :| 0 <= i < j < |s| && s[i] == s[j];
        assert j == |s| - 1 && s[i] == Init(s)[i];
        assert multiset(s)[s[i]] == multiset(Init(s))[s[i]] + 1;
      } else {
        var x :| multiset(Init(s))[x] > 1;
        assert multiset(s)[x] > 1;
      }
    }
  }

  lemma MultisetInit<T>(s: seq<T>)
    requires s != []
    ensures multiset(s) == multiset(Init(s)) + multiset{Last(s)}
  {
    assert s == Init(s) + [Last(s)];
  }

  lemma MultisetRemove<T>(s: seq<T>, x: T)
    ensures multiset(Remove(s, x)) == multiset(s) - multiset{x}
  {
    if x in s {
      var k := IndexOf(s, x);
      RemoveAt(s, k);
      MultisetCut(s, k);
    } else {
      RemoveAbsent(s, x);
    }
  }

  lemma MultisetCut<T>(s: seq<T>, k: nat)
    requires k < |s|
    ensures multiset(Cut(s, k)) == multiset(s) - multiset{s[k]}
  {
    assert s == s[..k] + [s[k]] + s[k + 1..];
  }

  /** s lists elements by strictly decreasing rank. */
  ghost predicate Decreasing<T>(s: seq<T>, rank: T -> int) {
    forall i, j :: 0 <= i < j < |s| ==> rank(s[i]) > rank(s[j])
  }

  lemma PrefixDecreasing<T>(s: seq<T>, s': seq<T>, rank: T -> int)
    requires s' <= s && Decreasing(s, rank)
    ensures Decreasing(s', rank)
  {
  }

  lemma EmptyDecreasing<T>(rank: T -> int)
    ensures Decreasing([], rank)
  {
  }

  lemma RemoveDecreasing<T>(s: seq<T>, x: T, rank: T -> int)
    requires Decreasing(s, rank)
    ensures Decreasing(Remove(s, x), rank)
  {
    if x in s {
      RemoveAt(s, IndexOf(s, x));
    } else {
      RemoveAbsent(s, x);
    }
  }

  lemma TakeCons<T>(x: T, s: seq<T>, n: nat)
    requires n > 0
    ensures Take([x] + s, n) == [x] + Take(s, n - 1)
  {
  }

  /** Truncating before a removal or only after it makes no difference below the cut. */
  lemma {:induction false} RemoveOfTake<T>(s: seq<T>, x: T, n: nat)
    requires n > 0
    ensures Take(Remove(Take(s, n), x), n - 1) == Take(Remove(s, x), n - 1)
  {
    if n > 1 && s != [] {
      assert Take(s, n) == [s[0]] + Take(s[1..], n - 1);
      if s[0] != x {
        RemoveOfTake(s[1..], x, n - 1);
        assert Remove(Take(s, n), x) == [s[0]] + Remove(Take(s[1..], n - 1), x);
        TakeCons(s[0], Remove(s[1..], x), n - 1);
        TakeCons(s[0], Remove(Take(s[1..], n - 1), x), n - 1);
      }
    }
  }

  lemma ElemsNone<T>(s: seq<T>)
    requires s == []
    ensures Elems(s) == {}
  {
  }

  lemma ElemsInit<T>(s: seq<T>)
    requires s != []
    ensures Elems(s) == Elems(Init(s)) + {Last(s)} && Last(s) in Elems(s)
    ensures Distinct(s) ==> Distinct(Init(s)) && Elems(Init(s)) == Elems(s) - {Last(s)}
  {
  }

  lemma ElemsCons<T>(x: T, s: seq<T>)
    ensures Elems([x] + s) == {x} + Elems(s)
    ensures Distinct(s) && x !in s ==> Distinct([x] + s)
  {
  }

  lemma ElemsSnoc<T>(s: seq<T>, x: T)
    ensures Elems(s + [x]) == Elems(s) + {x}
  {
  }

  lemma ElemsCut<T>(s: seq<T>, k: nat)
    requires k < |s|
    ensures Elems(s) == Elems(Cut(s, k)) + {s[k]} && s[k] in Elems(s)
    ensures Distinct(s) ==> Distinct(Cut(s, k)) && Elems(Cut(s, k)) == Elems(s) - {s[k]}
  {
  }

  lemma OnlyAt<T>(s: seq<T>, k: int)
    requires Distinct(s)
    ensures 0 <= k < |s| ==> forall i :: 0 <= i < |s| && i != k ==> s[i] != s[k]
  {
  }

  lemma CutMembers<T>(s: seq<T>, k: nat)
    requires Distinct(s) && k < |s|
    ensures Distinct(Cut(s, k))
    ensures forall x :: x in Cut(s, k) <==> x in s && x != s[k]
  {
  }

  lemma DistinctSize<T>(s: seq<T>)
    requires Distinct(s)
    ensures |Elems(s)| == |s|
  {
    if s != [] {
      DistinctSize(Init(s));
      assert Elems(s) == Elems(Init(s)) + {Last(s)};
    }
  }

  lemma SubsetSize<T>(a: set<T>, b: set<T>)
    requires a <= b
    ensures |a| <= |b|
  {
    assert b == a + (b - a);
  }
}
