/** The order of last_access arrays: operator< of std::array, MetaCmp of include/lru2_policy.hh. */
module AccessTimes {
  import opened Sequences

  /** The last K access numbers, oldest first; 0 (SENTINEL) stands for none. */
  type Times = seq<nat>

  /** Lexicographic comparison. */
  predicate Less(a: Times, b: Times) {
    if b == [] then false
    else if a == [] then true
    else a[0] < b[0] || (a[0] == b[0] && Less(a[1..], b[1..]))
  }

  lemma {:induction false} LessTransitive(a: Times, b: Times, c: Times)
    requires !Less(b, a) && !Less(c, b)
    ensures !Less(c, a)
  {
    if a != [] && b != [] && c != [] {
      if a[0] == b[0] == c[0] {
        LessTransitive(a[1..], b[1..], c[1..]);
      }
    }
  }

  lemma LessChain(a: Times, b: Times, c: Times)
    requires Less(a, b) && Less(b, c)
    ensures Less(a, c)
  {
  }

  lemma {:induction false} LessAsymmetric(a: Times, b: Times)
    requires Less(a, b)
    ensures !Less(b, a)
  {
    if a != [] && a[0] == b[0] {
      LessAsymmetric(a[1..], b[1..]);
    }
  }

  lemma {:induction false} LessIrreflexive(a: Times)
    ensures !Less(a, a)
  {
    if a != [] { LessIrreflexive(a[1..]); }
  }

  /** Two arrays are ordered one way or the other unless they are equal. */
  lemma {:induction false} LessTotal(a: Times, b: Times)
    ensures Less(a, b) || Less(b, a) || a == b
  {
    if a != [] && b != [] && a[0] == b[0] {
      LessTotal(a[1..], b[1..]);
      assert a == [a[0]] + a[1..] && b == [b[0]] + b[1..];
    }
  }

  ghost predicate Sorted(a: Times) {
    forall i, j :: 0 <= i <= j < |a| ==> a[i] <= a[j]
  }

  /** update_latest: shift left and store the newest number at the back. */
  ghost function Shifted(a: Times, n: nat): Times
    requires a != []
  {
    a[1..] + [n]
  }

  lemma ShiftedSorted(a: Times, n: nat)
    requires a != [] && Sorted(a) && Last(a) < n
    ensures Sorted(Shifted(a, n)) && |Shifted(a, n)| == |a|
  {
  }

  /** A touch strictly raises a sorted key. */
  lemma {:induction false} TouchRaises(a: Times, n: nat)
    requires a != [] && Sorted(a) && Last(a) < n
    ensures Less(a, Shifted(a, n))
  {
    if |a| > 1 {
      assert Shifted(a, n)[1..] == Shifted(a[1..], n);
      TouchRaises(a[1..], n);
    }
  }

  ghost function Zeros(k: nat): Times { seq(k, _ => 0) }

  /** clear_access: last_access.fill(SENTINEL). */
  function ClearedTimes(k: nat): (a: Times)
    ensures a == Zeros(k)
  {
    seq(k, _ => 0)
  }
}
