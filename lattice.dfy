/** Notions shared by both hopping models: outcomes of operations that can
    fail, totals over a lattice, and periodic (ring) adjacency. */
module Lattice {

  datatype Option<T> = None | Some(value: T)

  /** How an operation of the simulator fails instead of returning a value. */
  datatype Error =
    | DivisionByZero          // an activity fraction of a lattice with no sites
    | NoActiveSiteList        // the Manna threshold is 0, so no active-site list exists
    | ConfigurationNotString  // the CLG pattern parser was handed something other than text
    | NonNumericConfiguration // the Manna pattern parser was handed non-empty text
    | UnknownModel            // a model tag other than "clg" or "manna"
    | EmptyDrawRange          // a random site drawn from a lattice with no sites
    | NegativeSampleSize      // a sample of a negative number of sites
    | NegativeDimension       // a lattice of a negative number of sites

  datatype Result<T> = Ok(value: T) | Err(error: Error)

  /** Total occupancy of a lattice (or total of any integer sequence). */
  function Sum(s: seq<int>): int
  {
    if s == [] then 0 else Sum(s[..|s| - 1]) + s[|s| - 1]
  }

  lemma {:induction false} SumUpdate(s: seq<int>, i: nat, v: int)
    requires i < |s|
    ensures Sum(s[i := v]) == Sum(s) - s[i] + v
  {
    var n := |s| - 1;
    if i < n {
      assert s[i := v][..n] == s[..n][i := v];
      SumUpdate(s[..n], i, v);
    } else {
      assert s[i := v][..n] == s[..n];
    }
  }

  /** The sequence s with d added at position i. */
  function AddAt(s: seq<int>, i: nat, d: int): (r: seq<int>)
    requires i < |s|
    ensures |r| == |s|
  {
    s[i := s[i] + d]
  }

  /** Adding d at one position adds d to the total. */
  lemma {:induction false} SumAddAt(s: seq<int>, i: nat, d: int)
    requires i < |s|
    ensures Sum(AddAt(s, i, d)) == Sum(s) + d
  {
    var n := |s| - 1;
    if i < n {
      assert AddAt(s, i, d)[..n] == AddAt(s[..n], i, d);
      SumAddAt(s[..n], i, d);
    } else {
      assert AddAt(s, i, d)[..n] == s[..n];
    }
  }

  lemma {:induction false} SumOfZeros(s: seq<int>)
    requires forall i :: 0 <= i < |s| ==> s[i] == 0
    ensures Sum(s) == 0
  {
    if s != [] {
      SumOfZeros(s[..|s| - 1]);
    }
  }

  /** An element read at a valid index is a member. */
  lemma MemberAt<T>(s: seq<T>, k: int)
    ensures 0 <= k < |s| ==> s[k] in s
  {
  }

  /** Every site holds 0 or 1 particle (the CLG exclusion constraint). */
  predicate Binary(a: seq<int>)
  {
    forall i :: 0 <= i < |a| ==> a[i] == 0 || a[i] == 1
  }

  predicate NonNegative(a: seq<int>)
  {
    forall i :: 0 <= i < |a| ==> a[i] >= 0
  }

  predicate StrictlyIncreasing(s: seq<nat>)
  {
    forall i, j :: 0 <= i < j < |s| ==> s[i] < s[j]
  }

  /** A strictly increasing list of values below n has at most n elements. */
  lemma {:induction false} StrictlyIncreasingBound(s: seq<nat>, n: nat)
    requires StrictlyIncreasing(s)
    requires forall i :: 0 <= i < |s| ==> s[i] < n
    ensures |s| <= n
  {
    if s != [] {
      var init := s[..|s| - 1];
      assert forall i :: 0 <= i < |init| ==> init[i] < s[|s| - 1];
      StrictlyIncreasingBound(init, s[|s| - 1]);
    }
  }

  /** A count k out of n > 0 sites, as a fraction, lies in [0, 1]. */
  lemma FractionBounds(k: nat, n: nat)
    requires 0 < n && k <= n
    ensures 0.0 <= (k as real) / (n as real) <= 1.0
    ensures ((k as real) / (n as real)) * (n as real) == k as real
  {
    assert (k as real) <= (n as real);
  }

  /** The right-hand neighbour of site s on a ring of L sites, `(s + 1) % L`. */
  function Right(s: nat, L: nat): (r: nat)
    requires s < L
    ensures r < L && r == (s + 1) % L
  {
    if s + 1 == L then 0 else s + 1
  }

  /** The left-hand neighbour of site s on a ring of L sites, `(s - 1) % L`
      with the remainder taken non-negative, as Python's `%` does. */
  function Left(s: nat, L: nat): (r: nat)
    requires s < L
    ensures r < L && r == (s - 1) % L
  {
    if s == 0 then L - 1 else s - 1
  }

  /** Stepping by +1 or -1 around the ring lands on the matching neighbour. */
  lemma StepIsNeighbour(s: nat, L: nat, d: int)
    requires s < L && (d == 1 || d == -1)
    ensures (s + d) % L == if d == 1 then Right(s, L) else Left(s, L)
  {
  }
}
