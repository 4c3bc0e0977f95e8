/** Finite counting facts shared by the proofs. */
module Counting {

  /** The naturals below n. */
  ghost function Below(n: nat): (s: set<nat>)
    ensures |s| == n && forall i :: i in s <==> 0 <= i < n
  {
    if n == 0 then {} else Below(n - 1) + {n - 1}
  }

  lemma SubsetCount<T>(a: set<T>, b: set<T>)
    requires a <= b
    ensures |a| <= |b|
  {
    if a != {} {
      var x :| x in a;
      SubsetCount(a - {x}, b - {x});
    }
  }

  /** The naturals from lo to hi, both included. */
  ghost function Between(lo: nat, hi: nat): (s: set<nat>)
    requires lo <= hi
    ensures |s| == hi - lo + 1 && forall i :: i in s <==> lo <= i <= hi
    decreases hi - lo
  {
    if lo == hi then {lo} else Between(lo, hi - 1) + {hi}
  }
}
