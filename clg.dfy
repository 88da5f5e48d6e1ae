/** The Conserved Lattice Gas on a ring: every site holds 0 or 1 particle, and
    an occupied site with exactly one occupied neighbour hops into its empty
    neighbour. Randomness is an explicit input: a `sample` of distinct sites for
    initialisation, coins for the competition resolver, and picks for the
    randomized one-mover-per-step mode. */
module Clg {
  import opened Lattice

  // ---------------------------------------------------------------------------
  // Initialisation
  // ---------------------------------------------------------------------------

  /** Sites a random sample without replacement may return: distinct sites below L. */
  predicate IsSample(sample: seq<nat>, L: nat)
  {
    (forall i :: 0 <= i < |sample| ==> sample[i] < L) &&
    (forall i, j :: 0 <= i < j < |sample| ==> sample[i] != sample[j])
  }

  /** Builds a lattice of L sites holding n particles. For n < L the particles
      sit on the sites of `sample` (the random draw); for n == L every site is
      occupied; for n > L the source only reports the problem and returns the
      empty lattice. A negative L is a size the zero array rejects, before
      anything else; a negative n is a sample size the draw rejects. */
  method CreateClgLattice(n: int, L: int, sample: seq<nat>) returns (r: Result<array<int>>)
    requires 0 <= n < L ==> |sample| == n && IsSample(sample, L)
    ensures r.Err? <==> L < 0 || n < 0
    ensures L < 0 ==> r == Err(NegativeDimension)
    ensures 0 <= L && n < 0 ==> r == Err(NegativeSampleSize)
    ensures r.Ok? ==> fresh(r.value) && r.value.Length == L
    ensures r.Ok? && n <= L ==> Binary(r.value[..]) && Sum(r.value[..]) == n
    ensures r.Ok? && n < L ==> forall x :: 0 <= x < L ==> (r.value[x] == 1 <==> x in sample)
    ensures r.Ok? && n == L ==> forall x :: 0 <= x < L ==> r.value[x] == 1
    ensures r.Ok? && n > L ==> forall x :: 0 <= x < L ==> r.value[x] == 0
  {
    if L < 0 {
      return Err(NegativeDimension);
    }
    if n < 0 {
      return Err(NegativeSampleSize);
    }
    var lattice;
    if n < L {
      lattice := PlaceSample(sample, L);
    } else if n == L {
      lattice := FillAll(L);
    } else {
      lattice := new int[L](_ => 0);
    }
    r := Ok(lattice);
  }

  /** The n < L branch of `create_clg_lattice`: one particle on each sampled site. */
  method PlaceSample(sample: seq<nat>, L: nat) returns (lattice: array<int>)
    requires IsSample(sample, L)
    ensures fresh(lattice) && lattice.Length == L
    ensures forall x :: 0 <= x < L ==> lattice[x] == if x in sample then 1 else 0
    ensures Binary(lattice[..]) && Sum(lattice[..]) == |sample|
  {
    lattice := new int[L](_ => 0);
    SumOfZeros(lattice[..]);
    var k := 0;
    while k < |sample|
      invariant 0 <= k <= |sample|
      invariant forall x :: 0 <= x < L ==> lattice[x] == if x in sample[..k] then 1 else 0
      invariant Sum(lattice[..]) == k
    {
      var it := sample[k];
      assert it !in sample[..k];
      SumUpdate(lattice[..], it, lattice[it] + 1);
      lattice[it] := lattice[it] + 1;
      assert sample[..k + 1] == sample[..k] + [it];
      k := k + 1;
    }
    assert sample[..|sample|] == sample;
  }

  /** The n == L branch of `create_clg_lattice`: every site occupied. */
  method FillAll(L: nat) returns (lattice: array<int>)
    ensures fresh(lattice) && lattice.Length == L
    ensures forall x :: 0 <= x < L ==> lattice[x] == 1
    ensures Sum(lattice[..]) == L
  {
    lattice := new int[L](_ => 0);
    SumOfZeros(lattice[..]);
    var k := 0;
    while k < L
      invariant 0 <= k <= L
      invariant forall x :: 0 <= x < L ==> lattice[x] == if x < k then 1 else 0
      invariant Sum(lattice[..]) == k
    {
      SumUpdate(lattice[..], k, lattice[k] + 1);
      lattice[k] := lattice[k] + 1;
      k := k + 1;
    }
  }

  // ---------------------------------------------------------------------------
  // Active sites and hop direction
  // ---------------------------------------------------------------------------

  /** An occupied site is active when exactly one of its two periodic
      neighbours holds exactly 1 particle. */
  predicate IsActive(a: seq<int>, s: nat)
    requires s < |a|
  {
    a[s] != 0 && ((a[Right(s, |a|)] == 1) != (a[Left(s, |a|)] == 1))
  }

  /** The active sites below n, in increasing order. */
  function ActiveBelow(a: seq<int>, n: nat): (r: seq<nat>)
    requires n <= |a|
    ensures forall i :: 0 <= i < |r| ==> r[i] < n
  {
    if n == 0 then [] else ActiveBelow(a, n - 1) + (if IsActive(a, n - 1) then [n - 1] else [])
  }

  lemma {:induction false} ActiveBelowSpec(a: seq<int>, n: nat)
    requires n <= |a|
    ensures StrictlyIncreasing(ActiveBelow(a, n))
    ensures forall x: nat :: x in ActiveBelow(a, n) <==> x < n && IsActive(a, x)
  {
    if n > 0 {
      ActiveBelowSpec(a, n - 1);
    }
  }

  /** The scan of `find_active_sites`: the sites of the lattice, in increasing order. */
  function ActiveSites(a: seq<int>): (r: seq<nat>)
    ensures forall i :: 0 <= i < |r| ==> r[i] < |a|
  {
    ActiveBelow(a, |a|)
  }

  /** `find_active_sites` lists every active site, each once, in increasing order. */
  lemma ActiveSitesSpec(a: seq<int>)
    ensures StrictlyIncreasing(ActiveSites(a))
    ensures forall x: nat :: x in ActiveSites(a) <==> x < |a| && IsActive(a, x)
  {
    ActiveBelowSpec(a, |a|);
  }

  /** A ring of fewer than three sites never has an active site: both
      neighbours of a site are then the same site. */
  lemma NoActiveSitesBelowThree(a: seq<int>)
    requires |a| < 3
    ensures ActiveSites(a) == []
  {
    var r := ActiveSites(a);
    ActiveSitesSpec(a);
    forall x: nat | x < |a|
      ensures !IsActive(a, x)
    {
      assert Right(x, |a|) == Left(x, |a|);
    }
    MemberAt(r, 0);
  }

  /** No active site in an all-empty or all-full lattice. */
  lemma UniformLatticeIsAbsorbing(a: seq<int>, v: int)
    requires v == 0 || v == 1
    requires forall i :: 0 <= i < |a| ==> a[i] == v
    ensures ActiveSites(a) == []
  {
    var r := ActiveSites(a);
    ActiveSitesSpec(a);
    MemberAt(r, 0);
  }

  /** The direction of the empty neighbour, as `find_empty_neighbor` reads it:
      -1 (left) when the right neighbour holds exactly 1, +1 (right) otherwise. */
  function EmptyNeighbor(a: seq<int>, s: nat): (d: int)
    requires s < |a|
    ensures d == 1 || d == -1
  {
    if a[Right(s, |a|)] == 1 then -1 else 1
  }

  /** The site a particle leaving s moves to, read on lattice a. */
  function Target(a: seq<int>, s: nat): (g: nat)
    requires s < |a|
    ensures g < |a|
    ensures g == if a[Right(s, |a|)] == 1 then Left(s, |a|) else Right(s, |a|)
  {
    StepIsNeighbour(s, |a|, EmptyNeighbor(a, s));
    (s + EmptyNeighbor(a, s)) % |a|
  }

  /** On a binary lattice, an active site is occupied, its hop target is its
      empty neighbour, and its other neighbour is occupied. */
  lemma ActiveTargetIsEmpty(a: seq<int>, s: nat)
    requires Binary(a) && s < |a| && IsActive(a, s)
    ensures a[s] == 1 && a[Target(a, s)] == 0
    ensures EmptyNeighbor(a, s) == -1 ==> Target(a, s) == Left(s, |a|) && a[Right(s, |a|)] == 1
    ensures EmptyNeighbor(a, s) == 1 ==> Target(a, s) == Right(s, |a|) && a[Left(s, |a|)] == 1
  {
  }

  // ---------------------------------------------------------------------------
  // Competition resolution
  // ---------------------------------------------------------------------------

  /** The i-th active site and its successor in the list (cyclically) are two apart. */
  predicate Contends(active: seq<nat>, i: nat)
    requires i < |active|
  {
    active[(i + 1) % |active|] == active[i] + 2
  }

  /** The member of contending pair i the coin deactivates: the first when the
      coin is true, the successor otherwise. */
  function Loser(active: seq<nat>, i: nat, coin: nat -> bool): int
    requires i < |active|
  {
    if coin(i) then active[i] else active[(i + 1) % |active|]
  }

  /** The losers of the contending pairs among the first k positions. */
  function PairLosers(active: seq<nat>, coin: nat -> bool, k: nat): set<int>
    requires k <= |active|
  {
    if k == 0 then {}
    else PairLosers(active, coin, k - 1)
         + (if Contends(active, k - 1) then {Loser(active, k - 1, coin)} else {})
  }

  /** Every contending pair among the first k positions contributes its loser. */
  lemma {:induction false} PairLoserIncluded(active: seq<nat>, coin: nat -> bool, k: nat, i: nat)
    requires i < k <= |active| && Contends(active, i)
    ensures Loser(active, i, coin) in PairLosers(active, coin, k)
  {
    if i < k - 1 {
      PairLoserIncluded(active, coin, k - 1, i);
    }
  }

  /** Every member of PairLosers is the loser of a contending pair. */
  lemma {:induction false} PairLoserSource(active: seq<nat>, coin: nat -> bool, k: nat, x: int)
    returns (i: nat)
    requires k <= |active| && x in PairLosers(active, coin, k)
    ensures i < k && Contends(active, i) && Loser(active, i, coin) == x
  {
    if Contends(active, k - 1) && Loser(active, k - 1, coin) == x {
      i := k - 1;
    } else {
      i := PairLoserSource(active, coin, k - 1, x);
    }
  }

  /** The loser of a seam pair (x, y) when both are active, decided by coin c. */
  function SeamLoser(active: seq<nat>, x: int, y: int, c: bool): set<int>
  {
    if x in active && y in active then {if c then x else y} else {}
  }

  /** Every site `fix_competition` deactivates: one of each contending pair
      (coin i decides pair i), one of the seam pair (0, L-2) (coin |active|)
      and one of the seam pair (1, L-1) (coin |active|+1). */
  function Deactivated(active: seq<nat>, L: int, coin: nat -> bool): set<int>
  {
    PairLosers(active, coin, |active|)
      + SeamLoser(active, 0, L - 2, coin(|active|))
      + SeamLoser(active, 1, L - 1, coin(|active| + 1))
  }

  /** The elements of s not in X, in their original order. */
  function Without(s: seq<nat>, X: set<int>): (r: seq<nat>)
    ensures |r| <= |s|
  {
    if s == [] then []
    else (if s[0] in X then [] else [s[0]]) + Without(s[1..], X)
  }

  /** The members of Without(s, X) are exactly the members of s outside X. */
  lemma {:induction false} WithoutMembers(s: seq<nat>, X: set<int>)
    ensures forall x: nat :: x in Without(s, X) <==> x in s && x !in X
  {
    if s != [] {
      WithoutMembers(s[1..], X);
      assert s == [s[0]] + s[1..];
    }
  }

  lemma {:induction false} WithoutKeepsOrder(s: seq<nat>, X: set<int>)
    requires StrictlyIncreasing(s)
    ensures StrictlyIncreasing(Without(s, X))
  {
    if s != [] {
      var rest := Without(s[1..], X);
      WithoutKeepsOrder(s[1..], X);
      WithoutMembers(s[1..], X);
      assert forall i :: 0 <= i < |rest| ==> rest[i] in s[1..];
      assert forall i :: 0 <= i < |rest| ==> s[0] < rest[i];
    }
  }

  lemma WithoutBounded(s: seq<nat>, X: set<int>, n: nat)
    requires forall i :: 0 <= i < |s| ==> s[i] < n
    ensures forall i :: 0 <= i < |Without(s, X)| ==> Without(s, X)[i] < n
  {
    var r := Without(s, X);
    WithoutMembers(s, X);
    forall i | 0 <= i < |r| ensures r[i] < n {
      assert r[i] in s;
    }
  }

  /** The active sites that survive competition resolution. */
  function Survivors(active: seq<nat>, L: int, coin: nat -> bool): seq<nat>
  {
    Without(active, Deactivated(active, L, coin))
  }

  /** Python's `list.remove`: drops the first occurrence of x. */
  function RemoveFirst(s: seq<nat>, x: int): (r: seq<nat>)
    ensures x in s ==> |r| == |s| - 1
    ensures x !in s ==> r == s
  {
    if s == [] then []
    else if s[0] == x then s[1..]
    else [s[0]] + RemoveFirst(s[1..], x)
  }

  /** The position of the first occurrence of x in s. */
  function FirstIndex(s: seq<nat>, x: int): (k: nat)
    requires x in s
    ensures k < |s| && s[k] == x && x !in s[..k]
  {
    if s[0] == x then 0
    else
      var k := FirstIndex(s[1..], x);
      assert s[..k + 1] == [s[0]] + s[1..][..k];
      k + 1
  }

  /** `RemoveFirst` drops the first occurrence, and the rest of the list keeps
      its order. */
  lemma {:induction false} RemoveFirstDropsFirst(s: seq<nat>, x: int)
    requires x in s
    ensures RemoveFirst(s, x) == s[..FirstIndex(s, x)] + s[FirstIndex(s, x) + 1..]
  {
    if s[0] != x {
      var t := s[1..];
      var k := FirstIndex(t, x);
      assert FirstIndex(s, x) == k + 1;
      assert RemoveFirst(s, x) == [s[0]] + RemoveFirst(t, x);
      RemoveFirstDropsFirst(t, x);
      assert s[..k + 1] == [s[0]] + t[..k];
      assert s[k + 2..] == t[k + 1..];
    }
  }

  lemma {:induction false} WithoutIgnoresAbsent(s: seq<nat>, X: set<int>, x: int)
    requires x !in s
    ensures Without(s, X + {x}) == Without(s, X)
  {
    if s != [] {
      assert x !in s[1..];
      WithoutIgnoresAbsent(s[1..], X, x);
    }
  }

  /** On a list without repetitions, removing x from the filtered list is
      filtering by one more element. */
  lemma {:induction false} RemoveFirstIsWithout(s: seq<nat>, X: set<int>, x: int)
    requires StrictlyIncreasing(s)
    ensures RemoveFirst(Without(s, X), x) == Without(s, X + {x})
  {
    if s != [] {
      var tail := s[1..];
      assert StrictlyIncreasing(tail);
      if s[0] in X {
        RemoveFirstIsWithout(tail, X, x);
        assert Without(s, X) == Without(tail, X);
        assert Without(s, X + {x}) == Without(tail, X + {x});
      } else if s[0] == x {
        assert x !in tail;
        WithoutIgnoresAbsent(tail, X, x);
        var w := Without(tail, X);
        assert Without(s, X) == [x] + w;
        assert ([x] + w)[1..] == w;
        assert Without(s, X + {x}) == Without(tail, X + {x});
      } else {
        RemoveFirstIsWithout(tail, X, x);
        var w := Without(tail, X);
        assert Without(s, X) == [s[0]] + w;
        assert Without(s, X + {x}) == [s[0]] + Without(tail, X + {x});
        assert ([s[0]] + w)[1..] == w;
      }
    }
  }

  /** `fix_competition`: collects the deactivated sites in a set, then removes
      each from the list with `list.remove`. The list the source mutates is
      local to its caller, so the model returns the shortened list instead. */
  method FixCompetition(active: seq<nat>, lattice: seq<int>, coin: nat -> bool)
    returns (survivors: seq<nat>)
    requires StrictlyIncreasing(active)
    ensures survivors == Survivors(active, |lattice|, coin)
  {
    var removed := CollectDeactivated(active, |lattice|, coin);
    survivors := RemoveEach(active, removed);
  }

  /** The first half of `fix_competition`: the set of sites to deactivate. */
  method CollectDeactivated(active: seq<nat>, L: int, coin: nat -> bool) returns (removed: set<int>)
    ensures removed == Deactivated(active, L, coin)
  {
    var lenActive := |active|;
    removed := {};
    var i := 0;
    while i < lenActive
      invariant 0 <= i <= lenActive
      invariant removed == PairLosers(active, coin, i)
    {
      var next := active[(i + 1) % lenActive];
      if next == active[i] + 2 {
        if coin(i) {
          removed := removed + {active[i]};
        } else {
          removed := removed + {next};
        }
      }
      PairLosersStep(active, coin, i);
      i := i + 1;
    }
    if 0 in active && L - 2 in active {
      if coin(lenActive) {
        removed := removed + {0};
      } else {
        removed := removed + {L - 2};
      }
    }
    if 1 in active && L - 1 in active {
      if coin(lenActive + 1) {
        removed := removed + {1};
      } else {
        removed := removed + {L - 1};
      }
    }
  }

  lemma PairLosersStep(active: seq<nat>, coin: nat -> bool, i: nat)
    requires i < |active|
    ensures PairLosers(active, coin, i + 1)
         == PairLosers(active, coin, i) + (if Contends(active, i) then {Loser(active, i, coin)} else {})
  {
  }

  /** The second half of `fix_competition`: `list.remove` of every deactivated site. */
  method RemoveEach(active: seq<nat>, removed: set<int>) returns (survivors: seq<nat>)
    requires StrictlyIncreasing(active)
    ensures survivors == Without(active, removed)
  {
    survivors := active;
    var pending := removed;
    WithoutEmpty(active);
    assert removed - pending == {};
    while pending != {}
      invariant pending <= removed
      invariant survivors == Without(active, removed - pending)
      decreases pending
    {
      EmptyOrMember(pending);
      var x :| x in pending;
      RemoveFirstIsWithout(active, removed - pending, x);
      survivors := RemoveFirst(survivors, x);
      assert removed - (pending - {x}) == (removed - pending) + {x};
      pending := pending - {x};
    }
    assert removed - pending == removed;
  }

  /** A set is empty or has a member (the pick of Python's set iteration). */
  lemma EmptyOrMember(S: set<int>)
    ensures S == {} || exists x :: x in S
  {
    assert (forall x :: x !in S) ==> S == {};
  }

  lemma {:induction false} WithoutEmpty(s: seq<nat>)
    ensures Without(s, {}) == s
  {
    if s != [] {
      WithoutEmpty(s[1..]);
    }
  }

  /** Competition resolution only removes sites (the survivors are a sublist of
      the active list, still increasing), breaks every consecutive pair that is
      two apart and both seam pairs, and leaves an empty list empty. */
  lemma SurvivorsResolveContention(active: seq<nat>, L: int, coin: nat -> bool)
    requires StrictlyIncreasing(active)
    ensures var S := Survivors(active, L, coin);
      && StrictlyIncreasing(S)
      && |S| <= |active|
      && (forall x: nat :: x in S ==> x in active)
      && (forall i :: 0 <= i < |active| - 1 && active[i + 1] == active[i] + 2 ==>
            active[i] !in S || active[i + 1] !in S)
      && (0 in active && L - 2 in active ==> 0 !in S || L - 2 !in S)
      && (1 in active && L - 1 in active ==> 1 !in S || L - 1 !in S)
      && (active == [] ==> S == [])
  {
    WithoutKeepsOrder(active, Deactivated(active, L, coin));
    WithoutMembers(active, Deactivated(active, L, coin));
    forall i | 0 <= i < |active| - 1 && active[i + 1] == active[i] + 2
      ensures active[i] !in Survivors(active, L, coin) || active[i + 1] !in Survivors(active, L, coin)
    {
      PairLoses(active, L, coin, i);
    }
  }

  /** Neither seam pair survives whole. */
  lemma SeamsBroken(active: seq<nat>, L: int, coin: nat -> bool)
    ensures var S := Survivors(active, L, coin);
      !(0 in S && L - 2 in S) && !(1 in S && L - 1 in S)
  {
    WithoutMembers(active, Deactivated(active, L, coin));
  }

  /** A consecutive pair two apart loses one member. */
  lemma PairLoses(active: seq<nat>, L: int, coin: nat -> bool, i: nat)
    requires i + 1 < |active| && active[i + 1] == active[i] + 2
    ensures active[i] in Deactivated(active, L, coin) || active[i + 1] in Deactivated(active, L, coin)
  {
    assert (i + 1) % |active| == i + 1;
    assert Contends(active, i);
    PairLoserIncluded(active, coin, |active|, i);
  }

  /** Sites are removed only as a member of a contending pair or a seam pair. */
  lemma SurvivorsRemoveOnlyContenders(active: seq<nat>, L: int, coin: nat -> bool, x: nat)
    requires StrictlyIncreasing(active)
    requires x in active && x !in Survivors(active, L, coin)
    ensures || (exists i :: 0 <= i < |active| && Contends(active, i) &&
                 (x == active[i] || x == active[(i + 1) % |active|]))
            || ((x == 0 || x == L - 2) && 0 in active && L - 2 in active)
            || ((x == 1 || x == L - 1) && 1 in active && L - 1 in active)
  {
    var D := Deactivated(active, L, coin);
    WithoutMembers(active, D);
    assert x in D;
    if x in PairLosers(active, coin, |active|) {
      var i := PairLoserSource(active, coin, |active|, x);
    }
  }

  // ---------------------------------------------------------------------------
  // The update, as written: moves are applied one after another on the live
  // lattice, and each direction is read after the earlier moves of the step.
  // ---------------------------------------------------------------------------

  /** One move of `parallel_update`: take a particle off s, then read the
      direction on the lattice as it now is and add the particle there. */
  function Hop(a: seq<int>, s: nat): (r: seq<int>)
    requires s < |a|
    ensures |r| == |a|
  {
    var lifted := a[s := a[s] - 1];
    var g := Target(lifted, s);
    lifted[g := lifted[g] + 1]
  }

  /** The moves of the sites of S, in order, each on the lattice the earlier
      ones left behind. */
  function Sweep(a: seq<int>, S: seq<nat>): (r: seq<int>)
    requires forall i :: 0 <= i < |S| ==> S[i] < |a|
    ensures |r| == |a|
    decreases |S|
  {
    if S == [] then a else Sweep(Hop(a, S[0]), S[1..])
  }

  /** A synchronous step: resolve competition among the active sites, then move the survivors. */
  function SyncStep(a: seq<int>, coin: nat -> bool): (r: seq<int>)
    ensures |r| == |a|
  {
    var S := Survivors(ActiveSites(a), |a|, coin);
    if forall i :: 0 <= i < |S| ==> S[i] < |a| then Sweep(a, S) else a
  }

  /** A randomized step: only the active site at position `pick` (modulo the
      number of active sites) moves. */
  function RandomStep(a: seq<int>, pick: nat): (r: seq<int>)
    requires ActiveSites(a) != []
    ensures |r| == |a|
  {
    var A := ActiveSites(a);
    Hop(a, A[pick % |A|])
  }

  /** One step of either mode from a lattice with an active site. */
  function Step(a: seq<int>, randomize: bool, coin: nat -> bool, pick: nat): (r: seq<int>)
    requires ActiveSites(a) != []
    ensures |r| == |a|
  {
    if randomize then RandomStep(a, pick) else SyncStep(a, coin)
  }

  /** The lattice after `n` more steps starting at step number t, stopping
      early once no site is active. */
  function Evolve(a: seq<int>, n: nat, randomize: bool, coins: nat -> nat -> bool,
                  picks: nat -> nat, t: nat): (r: seq<int>)
    ensures |r| == |a|
    decreases n
  {
    if n == 0 || ActiveSites(a) == [] then a
    else Evolve(Step(a, randomize, coins(t), picks(t)), n - 1, randomize, coins, picks, t + 1)
  }

  /** `parallel_update`: advances the lattice in place by `timesteps` steps
      (none when `timesteps` is negative, as `range` gives), or until no site
      is active. Step t uses the coins `coins(t)` in synchronous mode and the
      pick `picks(t)` in randomized mode. */
  method ParallelUpdate(lattice: array<int>, timesteps: int, randomize: bool,
                        coins: nat -> nat -> bool, picks: nat -> nat)
    modifies lattice
    ensures lattice[..] == Evolve(old(lattice[..]), if timesteps < 0 then 0 else timesteps,
                                  randomize, coins, picks, 0)
    ensures Sum(lattice[..]) == Sum(old(lattice[..]))
    ensures Binary(old(lattice[..])) ==> Binary(lattice[..])
  {
    var steps: nat := if timesteps < 0 then 0 else timesteps;
    RunSteps(lattice, steps, randomize, coins, picks);
    EvolveConserves(old(lattice[..]), steps, randomize, coins, picks, 0);
    if Binary(old(lattice[..])) {
      EvolveKeepsBinary(old(lattice[..]), steps, randomize, coins, picks, 0);
    }
  }

  /** The time loop of `parallel_update`. */
  method RunSteps(lattice: array<int>, timesteps: nat, randomize: bool,
                  coins: nat -> nat -> bool, picks: nat -> nat)
    modifies lattice
    ensures lattice[..] == Evolve(old(lattice[..]), timesteps, randomize, coins, picks, 0)
  {
    var t := 0;
    ghost var rest := timesteps;
    while t < timesteps
      invariant 0 <= t <= timesteps && rest == timesteps - t
      invariant Evolve(lattice[..], rest, randomize, coins, picks, t)
             == Evolve(old(lattice[..]), timesteps, randomize, coins, picks, 0)
    {
      var next := t + 1;
      ghost var left := rest - 1;
      var stopped := StepOnce(lattice, rest, left, randomize, coins, picks, t, next);
      if stopped {
        break;
      }
      t, rest := next, left;
    }
    EvolveIdle(lattice[..], rest, randomize, coins, picks, t);
  }

  /** One pass of the time loop, step number t with n steps left: stop when no
      site is active, otherwise move the chosen site (randomized) or every
      survivor (synchronous). The caller supplies the counters of the next pass,
      m == n - 1 and u == t + 1. */
  method StepOnce(lattice: array<int>, ghost n: nat, ghost m: nat, randomize: bool,
                  coins: nat -> nat -> bool, picks: nat -> nat, t: nat, ghost u: nat)
    returns (stopped: bool)
    requires n > 0 && m == n - 1 && u == t + 1
    modifies lattice
    ensures stopped <==> ActiveSites(old(lattice[..])) == []
    ensures stopped ==> lattice[..] == old(lattice[..])
    ensures !stopped ==> Evolve(old(lattice[..]), n, randomize, coins, picks, t)
                         == Evolve(lattice[..], m, randomize, coins, picks, u)
  {
    var activeSites := ActiveSites(lattice[..]);
    if |activeSites| == 0 {
      return true;
    }
    ghost var before := lattice[..];
    UpdateOnce(lattice, randomize, coins(t), picks(t));
    EvolveShift(before, n, m, randomize, coins, picks, t, u);
    return false;
  }

  /** Evolving from a lattice with an active site is one step followed by the rest. */
  lemma EvolveShift(a: seq<int>, n: nat, m: nat, randomize: bool,
                    coins: nat -> nat -> bool, picks: nat -> nat, t: nat, u: nat)
    requires ActiveSites(a) != [] && n > 0 && m == n - 1 && u == t + 1
    ensures Evolve(a, n, randomize, coins, picks, t)
         == Evolve(Step(a, randomize, coins(t), picks(t)), m, randomize, coins, picks, u)
  {
    EvolveUnfold(a, n, randomize, coins, picks, t);
    EvolveArgs(Step(a, randomize, coins(t), picks(t)), n - 1, m, randomize, coins, picks, t + 1, u);
  }

  /** Evolve depends on its counters only through their values. */
  lemma EvolveArgs(a: seq<int>, n: nat, m: nat, randomize: bool, coins: nat -> nat -> bool,
                   picks: nat -> nat, t: nat, u: nat)
    requires n == m && t == u
    ensures Evolve(a, n, randomize, coins, picks, t) == Evolve(a, m, randomize, coins, picks, u)
  {
  }

  /** No step is taken once the steps run out or no site is active. */
  lemma EvolveIdle(a: seq<int>, n: nat, randomize: bool, coins: nat -> nat -> bool, picks: nat -> nat, t: nat)
    requires n == 0 || ActiveSites(a) == []
    ensures Evolve(a, n, randomize, coins, picks, t) == a
  {
  }

  /** One step of the evolution, taken when there are steps left and active sites. */
  lemma EvolveUnfold(a: seq<int>, n: nat, randomize: bool, coins: nat -> nat -> bool, picks: nat -> nat, t: nat)
    requires 0 < n && ActiveSites(a) != []
    ensures Evolve(a, n, randomize, coins, picks, t)
         == Evolve(Step(a, randomize, coins(t), picks(t)), n - 1, randomize, coins, picks, t + 1)
  {
  }

  /** The body of one step of `parallel_update` once active sites exist. */
  method UpdateOnce(lattice: array<int>, randomize: bool, coin: nat -> bool, pick: nat)
    requires ActiveSites(lattice[..]) != []
    modifies lattice
    ensures lattice[..] == Step(old(lattice[..]), randomize, coin, pick)
  {
    var activeSites := ActiveSites(lattice[..]);
    if randomize {
      MoveParticle(lattice, activeSites[pick % |activeSites|]);
    } else {
      ActiveSitesSpec(lattice[..]);
      var survivors := FixCompetition(activeSites, lattice[..], coin);
      WithoutBounded(activeSites, Deactivated(activeSites, lattice.Length, coin), lattice.Length);
      MoveSurvivors(lattice, survivors);
    }
  }

  /** The two statements that move one particle off `site`; the direction is
      read after the decrement. */
  method MoveParticle(lattice: array<int>, site: nat)
    requires site < lattice.Length
    modifies lattice
    ensures lattice[..] == Hop(old(lattice[..]), site)
  {
    lattice[site] := lattice[site] - 1;
    var g := (site + EmptyNeighbor(lattice[..], site)) % lattice.Length;
    lattice[g] := lattice[g] + 1;
  }

  /** The inner loop of the synchronous mode: move every survivor in turn. */
  method MoveSurvivors(lattice: array<int>, survivors: seq<nat>)
    requires forall i :: 0 <= i < |survivors| ==> survivors[i] < lattice.Length
    modifies lattice
    ensures lattice[..] == Sweep(old(lattice[..]), survivors)
  {
    var k := 0;
    while k < |survivors|
      invariant 0 <= k <= |survivors|
      invariant Sweep(lattice[..], survivors[k..]) == Sweep(old(lattice[..]), survivors)
    {
      MoveParticle(lattice, survivors[k]);
      k := k + 1;
    }
  }

  /** `clg_activity`: the fraction of sites that are active (a lattice with no
      sites divides by zero). */
  function ClgActivity(a: seq<int>): (r: Result<real>)
    ensures a == [] <==> r == Err(DivisionByZero)
    ensures r.Ok? ==> 0.0 <= r.value <= 1.0 && r.value * (|a| as real) == |ActiveSites(a)| as real
  {
    if |a| == 0 then Err(DivisionByZero)
    else
      var A := ActiveSites(a);
      ActiveCountAtMostSize(a);
      Ok((|A| as real) / (|a| as real))
  }

  lemma ActiveCountAtMostSize(a: seq<int>)
    ensures |ActiveSites(a)| <= |a|
  {
    var A := ActiveSites(a);
    ActiveSitesSpec(a);
    StrictlyIncreasingBound(A, |a|);
  }

  // ---------------------------------------------------------------------------
  // Conservation
  // ---------------------------------------------------------------------------

  lemma HopConserves(a: seq<int>, s: nat)
    requires s < |a|
    ensures Sum(Hop(a, s)) == Sum(a)
  {
    var lifted := a[s := a[s] - 1];
    SumUpdate(a, s, a[s] - 1);
    var g := Target(lifted, s);
    SumUpdate(lifted, g, lifted[g] + 1);
    assert Hop(a, s) == lifted[g := lifted[g] + 1];
  }

  lemma {:induction false} SweepConserves(a: seq<int>, S: seq<nat>)
    requires forall i :: 0 <= i < |S| ==> S[i] < |a|
    ensures Sum(Sweep(a, S)) == Sum(a)
    decreases |S|
  {
    if S != [] {
      HopConserves(a, S[0]);
      SweepConserves(Hop(a, S[0]), S[1..]);
    }
  }

  lemma StepConserves(a: seq<int>, randomize: bool, coin: nat -> bool, pick: nat)
    requires ActiveSites(a) != []
    ensures Sum(Step(a, randomize, coin, pick)) == Sum(a)
  {
    var A := ActiveSites(a);
    if randomize {
      HopConserves(a, A[pick % |A|]);
    } else {
      WithoutBounded(A, Deactivated(A, |a|, coin), |a|);
      SweepConserves(a, Survivors(A, |a|, coin));
    }
  }

  /** Both modes conserve the total number of particles over any number of steps. */
  lemma {:induction false} EvolveConserves(a: seq<int>, n: nat, randomize: bool,
                                           coins: nat -> nat -> bool, picks: nat -> nat, t: nat)
    ensures Sum(Evolve(a, n, randomize, coins, picks, t)) == Sum(a)
    decreases n
  {
    if n == 0 || ActiveSites(a) == [] {
      EvolveIdle(a, n, randomize, coins, picks, t);
    } else {
      var b := Step(a, randomize, coins(t), picks(t));
      EvolveUnfold(a, n, randomize, coins, picks, t);
      StepConserves(a, randomize, coins(t), picks(t));
      EvolveConserves(b, n - 1, randomize, coins, picks, t + 1);
    }
  }

  // ---------------------------------------------------------------------------
  // Exclusion: the sweep keeps every site at 0 or 1
  // ---------------------------------------------------------------------------

  /** Two distinct sites with the same target are a pair the resolver breaks:
      two apart, or one of the two seam pairs. */
  lemma SameTargetIsContention(a: seq<int>, t: nat, u: nat)
    requires 3 <= |a| && t < u < |a|
    requires Target(a, t) == Target(a, u)
    ensures u == t + 2 || (t == 0 && u == |a| - 2) || (t == 1 && u == |a| - 1)
  {
  }

  /** The survivors hold no pair two apart and no seam pair. */
  predicate Separated(S: seq<nat>, L: int)
  {
    forall i, j :: 0 <= i < j < |S| ==>
      S[j] != S[i] + 2 && !(S[i] == 0 && S[j] == L - 2) && !(S[i] == 1 && S[j] == L - 1)
  }

  /** In an increasing list missing s+1, the element after s (if s+2 is present) is s+2. */
  lemma NextAfterGap(A: seq<nat>, i: nat, j: nat)
    requires StrictlyIncreasing(A) && i < j < |A| && A[j] == A[i] + 2
    requires A[i] + 1 !in A
    ensures j == i + 1
  {
    MemberAt(A, i + 1);
  }

  /** Between two active sites two apart lies a site that is not active: it
      is empty, or both its neighbours are occupied. */
  lemma GapNotActive(a: seq<int>, s: nat)
    requires Binary(a) && s + 2 < |a| && IsActive(a, s) && IsActive(a, s + 2)
    ensures !IsActive(a, s + 1)
  {
    assert Left(s + 1, |a|) == s && Right(s + 1, |a|) == s + 2;
  }

  /** Two active sites two apart are consecutive in the active list, so one
      of them is deactivated. */
  lemma TwoApartLoses(a: seq<int>, coin: nat -> bool, x: nat)
    requires Binary(a)
    requires x in ActiveSites(a) && x + 2 in ActiveSites(a)
    ensures var D := Deactivated(ActiveSites(a), |a|, coin);
      x in D || x + 2 in D
  {
    var A := ActiveSites(a);
    ActiveSitesSpec(a);
    GapNotActive(a, x);
    var p :| 0 <= p < |A| && A[p] == x;
    var q :| 0 <= q < |A| && A[q] == x + 2;
    NextAfterGap(A, p, q);
    PairLoses(A, |a|, coin, p);
  }

  /** Two active sites two apart do not both survive. */
  lemma SurvivorsNotTwoApart(a: seq<int>, coin: nat -> bool, x: nat)
    requires Binary(a)
    ensures var S := Survivors(ActiveSites(a), |a|, coin);
      !(x in S && x + 2 in S)
  {
    var A := ActiveSites(a);
    WithoutMembers(A, Deactivated(A, |a|, coin));
    if x in A && x + 2 in A {
      TwoApartLoses(a, coin, x);
    }
  }

  /** On a binary lattice the survivors of competition resolution are separated. */
  lemma SurvivorsSeparated(a: seq<int>, coin: nat -> bool)
    requires Binary(a)
    ensures Separated(Survivors(ActiveSites(a), |a|, coin), |a|)
  {
    var A := ActiveSites(a);
    var S := Survivors(A, |a|, coin);
    SeamsBroken(A, |a|, coin);
    forall i, j | 0 <= i < j < |S|
      ensures S[j] != S[i] + 2 && !(S[i] == 0 && S[j] == |a| - 2) && !(S[i] == 1 && S[j] == |a| - 1)
    {
      MemberAt(S, i);
      MemberAt(S, j);
      SurvivorsNotTwoApart(a, coin, S[i]);
    }
  }

  /** Distinct survivors never target the same empty site (read on the lattice
      at the start of the step). */
  lemma CompetitionSafety(a: seq<int>, coin: nat -> bool, i: nat, j: nat)
    requires Binary(a)
    requires var S := Survivors(ActiveSites(a), |a|, coin); i < j < |S|
    ensures var S := Survivors(ActiveSites(a), |a|, coin);
      S[i] < |a| && S[j] < |a| && Target(a, S[i]) != Target(a, S[j])
  {
    var A := ActiveSites(a);
    var S := Survivors(A, |a|, coin);
    ActiveSitesSpec(a);
    WithoutBounded(A, Deactivated(A, |a|, coin), |a|);
    WithoutKeepsOrder(A, Deactivated(A, |a|, coin));
    SurvivorsSeparated(a, coin);
    if |a| < 3 {
      NoActiveSitesBelowThree(a);
      WithoutEmpty(A);
    } else if Target(a, S[i]) == Target(a, S[j]) {
      SameTargetIsContention(a, S[i], S[j]);
    }
  }

  /** What the sweep needs of a site u that has not moved yet, where a0 is the
      lattice at the start of the step, a the live lattice, and zeroMoved tells
      whether site 0 has already moved. Site u still holds its particle and its
      hop target is empty; its right neighbour is as at the start of the step,
      except for site L-1 after site 0 moved, whose right neighbour (site 0) is
      then empty. */
  predicate Ready(a0: seq<int>, a: seq<int>, u: nat, zeroMoved: bool)
    requires |a| == |a0| && u < |a0|
  {
    var L := |a0|;
    a[u] == 1 &&
    if u == L - 1 && zeroMoved then a[0] == 0
    else a[Right(u, L)] == a0[Right(u, L)] && a[Target(a0, u)] == 0
  }

  /** A move from a ready site empties it and fills one empty neighbour: the
      one it targeted at the start of the step, or site 0 for site L-1 once
      site 0 has moved. */
  lemma HopFromReady(a0: seq<int>, a: seq<int>, t: nat, zeroMoved: bool)
    requires 3 <= |a0| && |a| == |a0| && t < |a0| && Binary(a)
    requires Ready(a0, a, t, zeroMoved)
    ensures var g := if t == |a0| - 1 && zeroMoved then 0 else Target(a0, t);
      g != t && a[g] == 0 && Hop(a, t) == a[t := 0][g := 1] && Binary(Hop(a, t))
  {
    var L := |a0|;
    var lifted := a[t := a[t] - 1];
    assert Right(t, L) != t;
    assert lifted[Right(t, L)] == a[Right(t, L)];
  }

  /** Moving an earlier survivor t keeps a later survivor u ready. */
  lemma ReadyAfterHop(a0: seq<int>, a: seq<int>, t: nat, u: nat, zeroMoved: bool)
    requires 3 <= |a0| && |a| == |a0| && t < u < |a0| && Binary(a)
    requires Ready(a0, a, t, zeroMoved) && Ready(a0, a, u, zeroMoved)
    requires u != t + 2 && !(t == 0 && u == |a0| - 2) && !(t == 1 && u == |a0| - 1)
    ensures Ready(a0, Hop(a, t), u, zeroMoved || t == 0)
  {
    var L := |a0|;
    HopFromReady(a0, a, t, zeroMoved);
    var g := Target(a0, t);
    var a' := Hop(a, t);
    assert a' == a[t := 0][g := 1];
    if u == L - 1 && (zeroMoved || t == 0) {
      assert Left(t, L) == 0 <==> t == 1;
      assert g != 0;
    } else {
      if g == Right(u, L) {
        assert Target(a0, u) == Right(u, L);
        SameTargetIsContention(a0, t, u);
      }
      if g == Target(a0, u) {
        SameTargetIsContention(a0, t, u);
      }
    }
  }

  lemma {:induction false} SweepKeepsBinaryFrom(a0: seq<int>, a: seq<int>, R: seq<nat>, zeroMoved: bool)
    requires 3 <= |a0| && |a| == |a0| && Binary(a)
    requires forall i :: 0 <= i < |R| ==> R[i] < |a0|
    requires StrictlyIncreasing(R) && Separated(R, |a0|)
    requires forall i :: 0 <= i < |R| ==> Ready(a0, a, R[i], zeroMoved)
    ensures Binary(Sweep(a, R))
    decreases |R|
  {
    if R != [] {
      var t := R[0];
      var rest := R[1..];
      HopFromReady(a0, a, t, zeroMoved);
      var a' := Hop(a, t);
      var zm := zeroMoved || t == 0;
      forall i | 0 <= i < |rest|
        ensures Ready(a0, a', rest[i], zm)
      {
        assert rest[i] == R[i + 1];
        ReadyAfterHop(a0, a, t, rest[i], zeroMoved);
      }
      assert Separated(rest, |a0|) by {
        forall i, j | 0 <= i < j < |rest| ensures rest[i] == R[i + 1] && rest[j] == R[j + 1] { }
      }
      SweepKeepsBinaryFrom(a0, a', rest, zm);
    }
  }

  /** A synchronous step keeps a binary lattice binary, although later moves
      read the lattice the earlier moves of the same step left behind. */
  lemma SyncStepKeepsBinary(a: seq<int>, coin: nat -> bool)
    requires Binary(a)
    ensures Binary(SyncStep(a, coin))
  {
    var A := ActiveSites(a);
    var S := Survivors(A, |a|, coin);
    ActiveSitesSpec(a);
    SurvivorsResolveContention(A, |a|, coin);
    if |a| < 3 {
      NoActiveSitesBelowThree(a);
      assert S == [];
    } else {
      SurvivorsSeparated(a, coin);
      forall i | 0 <= i < |S|
        ensures S[i] < |a| && Ready(a, a, S[i], false)
      {
        assert S[i] in A;
        ActiveTargetIsEmpty(a, S[i]);
      }
      SweepKeepsBinaryFrom(a, a, S, false);
    }
  }

  /** In randomized mode a step moves exactly one particle: the chosen active
      site loses it, its empty neighbour gains it, and no other site changes. */
  lemma RandomStepMovesOneParticle(a: seq<int>, pick: nat)
    requires Binary(a) && ActiveSites(a) != []
    ensures var A := ActiveSites(a);
      var s := A[pick % |A|];
      var g := Target(a, s);
      var r := RandomStep(a, pick);
      && (g == Left(s, |a|) || g == Right(s, |a|)) && g != s
      && a[s] == 1 && r[s] == 0 && a[g] == 0 && r[g] == 1
      && (forall x :: 0 <= x < |a| && x != s && x != g ==> r[x] == a[x])
      && Binary(r)
  {
    var A := ActiveSites(a);
    var s := A[pick % |A|];
    assert s in A;
    ActiveSitesSpec(a);
    if |a| < 3 {
      NoActiveSitesBelowThree(a);
    }
    ActiveTargetIsEmpty(a, s);
    HopFromReady(a, a, s, false);
  }

  /** Either mode keeps a binary lattice binary for one step. */
  lemma StepKeepsBinary(a: seq<int>, randomize: bool, coin: nat -> bool, pick: nat)
    requires Binary(a) && ActiveSites(a) != []
    ensures Binary(Step(a, randomize, coin, pick))
  {
    if randomize {
      RandomStepMovesOneParticle(a, pick);
    } else {
      SyncStepKeepsBinary(a, coin);
    }
  }

  /** Either mode keeps a binary lattice binary over any number of steps. */
  lemma {:induction false} EvolveKeepsBinary(a: seq<int>, n: nat, randomize: bool,
                                             coins: nat -> nat -> bool, picks: nat -> nat, t: nat)
    requires Binary(a)
    ensures Binary(Evolve(a, n, randomize, coins, picks, t))
    decreases n
  {
    if n == 0 || ActiveSites(a) == [] {
      EvolveIdle(a, n, randomize, coins, picks, t);
    } else {
      var b := Step(a, randomize, coins(t), picks(t));
      assert Binary(b) by {
        StepKeepsBinary(a, randomize, coins(t), picks(t));
      }
      assert Binary(Evolve(b, n - 1, randomize, coins, picks, t + 1)) by {
        EvolveKeepsBinary(b, n - 1, randomize, coins, picks, t + 1);
      }
      EvolveUnfold(a, n, randomize, coins, picks, t);
    }
  }

  // ---------------------------------------------------------------------------
  // Two small rings that show how the synchronous step behaves
  // ---------------------------------------------------------------------------

  /** On the ring 1 0 0 0 1 the active sites are 0 and 4. */
  lemma ActiveSitesOfSeamPair()
    ensures ActiveSites([1, 0, 0, 0, 1]) == [0, 4]
  {
    var a := [1, 0, 0, 0, 1];
    assert IsActive(a, 0) && !IsActive(a, 1) && !IsActive(a, 2);
    assert !IsActive(a, 3) && IsActive(a, 4);
    assert ActiveBelow(a, 1) == [0];
    assert ActiveBelow(a, 2) == [0];
    assert ActiveBelow(a, 3) == [0];
    assert ActiveBelow(a, 4) == [0];
  }

  /** Sites 0 and 4 are neither two apart in the list nor a seam pair on a
      ring of five, so both survive whatever the coins say. */
  lemma SeamPairSurvives(coin: nat -> bool)
    ensures Survivors([0, 4], 5, coin) == [0, 4]
  {
    var A: seq<nat> := [0, 4];
    assert !Contends(A, 0) && !Contends(A, 1);
    assert PairLosers(A, coin, 1) == {};
    assert PairLosers(A, coin, 2) == {};
    assert 3 !in A && 1 !in A;
    assert Deactivated(A, 5, coin) == {};
    WithoutEmpty(A);
  }

  /** On the ring 1 0 0 0 1 a synchronous step ends in 1 1 0 0 0, whatever
      the coins. Site 0 moves first, into site 1; site 4 then reads its right
      neighbour, site 0, as already empty and also moves right. Read on the
      lattice before the step, site 4's direction would have been left, into
      site 3. */
  lemma LiveReadExample(coin: nat -> bool)
    ensures SyncStep([1, 0, 0, 0, 1], coin) == [1, 1, 0, 0, 0]
    ensures Target([1, 0, 0, 0, 1], 4) == 3
  {
    ActiveSitesOfSeamPair();
    SeamPairSurvives(coin);
    SeamPairSweep();
  }

  /** Moving sites 0 and then 4 of the ring 1 0 0 0 1: site 0 hops right, into
      site 1, and then site 4 also hops right, into the vacated site 0. */
  lemma SeamPairSweep()
    ensures Hop([1, 0, 0, 0, 1], 0) == [0, 1, 0, 0, 1]
    ensures Hop([0, 1, 0, 0, 1], 4) == [1, 1, 0, 0, 0]
    ensures Sweep([1, 0, 0, 0, 1], [0, 4]) == [1, 1, 0, 0, 0]
  {
    var a := [1, 0, 0, 0, 1];
    var b := [0, 1, 0, 0, 1];
    assert Target(a[0 := 0], 0) == 1;
    assert Hop(a, 0) == b;
    assert Target(b[4 := 0], 4) == 0;
    assert Hop(b, 4) == [1, 1, 0, 0, 0];
    assert Sweep(a, [0, 4]) == Sweep(b, [4]);
    assert Sweep(b, [4]) == Sweep(Hop(b, 4), []);
  }

  /** On the ring 0 1 1 1 0 the active sites are 1 and 3. */
  lemma ActiveSitesOfSeparatedPair()
    ensures ActiveSites([0, 1, 1, 1, 0]) == [1, 3]
  {
    var a := [0, 1, 1, 1, 0];
    assert !IsActive(a, 0) && IsActive(a, 1) && !IsActive(a, 2);
    assert IsActive(a, 3) && !IsActive(a, 4);
    assert ActiveBelow(a, 1) == [];
    assert ActiveBelow(a, 2) == [1];
    assert ActiveBelow(a, 3) == [1];
    assert ActiveBelow(a, 4) == [1, 3];
  }

  /** Sites 1 and 3 are two apart in the list, and on a ring of five neither
      seam pair is complete, so only the coin of that pair deactivates one. */
  lemma SeparatedPairLoses(coin: nat -> bool)
    ensures Survivors([1, 3], 5, coin) == if coin(0) then [3] else [1]
  {
    var A: seq<nat> := [1, 3];
    assert Contends(A, 0) && !Contends(A, 1);
    var x := if coin(0) then 1 else 3;
    assert PairLosers(A, coin, 2) == {x} by {
      assert PairLosers(A, coin, 1) == {x};
    }
    assert 0 !in A && 4 !in A;
    assert Deactivated(A, 5, coin) == {x};
    if coin(0) {
      assert Without([3], {1}) == [3];
    } else {
      assert Without([3], {3}) == [];
    }
  }

  /** On the ring 0 1 1 1 0 the active sites 1 and 3 are two apart, so the
      coin of their pair deactivates one of them, although they hop towards
      different empty sites (0 and 4) and their moves would not collide. */
  lemma SeparatedPairExample(coin: nat -> bool)
    ensures ActiveSites([0, 1, 1, 1, 0]) == [1, 3]
    ensures Target([0, 1, 1, 1, 0], 1) == 0 && Target([0, 1, 1, 1, 0], 3) == 4
    ensures Survivors(ActiveSites([0, 1, 1, 1, 0]), 5, coin) == if coin(0) then [3] else [1]
  {
    ActiveSitesOfSeparatedPair();
    SeparatedPairLoses(coin);
  }
}
