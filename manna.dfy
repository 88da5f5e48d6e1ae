/** The Manna sandpile on a ring: a site holding more than the threshold z
    particles is active and sheds its excess over z, split at random between
    its two neighbours. The split draws and the placement draws are explicit
    inputs. */
module Manna {
  import opened Lattice

  // ---------------------------------------------------------------------------
  // Initialisation and counting
  // ---------------------------------------------------------------------------

  /** `create_manna_lattice`: particle k is dropped on site `sites[k]` (the k-th
      draw of a site in 0..L-1, with replacement). With no sites there is
      nothing to draw from, and the first particle fails. A negative n drops
      no particle at all. A negative L is a size the zero array rejects,
      before any particle is drawn. */
  method CreateMannaLattice(n: int, L: int, sites: seq<nat>) returns (r: Result<array<int>>)
    requires |sites| == if n < 0 then 0 else n
    requires L > 0 ==> forall k :: 0 <= k < |sites| ==> sites[k] < L
    ensures r.Err? <==> L < 0 || (L == 0 && n > 0)
    ensures L < 0 ==> r == Err(NegativeDimension)
    ensures L == 0 && n > 0 ==> r == Err(EmptyDrawRange)
    ensures r.Ok? ==> fresh(r.value) && r.value.Length == L
    ensures r.Ok? ==> forall x :: 0 <= x < L ==> r.value[x] == multiset(sites)[x]
    ensures r.Ok? ==> NonNegative(r.value[..]) && Sum(r.value[..]) == if n < 0 then 0 else n
  {
    if L < 0 {
      return Err(NegativeDimension);
    }
    if L == 0 && n > 0 {
      return Err(EmptyDrawRange);
    }
    var lattice := DropParticles(sites, L);
    DropsCount(sites, L);
    r := Ok(lattice);
  }

  /** The loop of `create_manna_lattice`: a zero lattice of L sites, then
      one particle added on each drawn site in turn. */
  method DropParticles(sites: seq<nat>, L: nat) returns (lattice: array<int>)
    requires forall k :: 0 <= k < |sites| ==> sites[k] < L
    ensures fresh(lattice) && lattice[..] == Drops(sites, L)
  {
    lattice := new int[L](_ => 0);
    assert lattice[..] == Drops([], L);
    var k := 0;
    while k < |sites|
      invariant 0 <= k <= |sites|
      invariant lattice[..] == Drops(sites[..k], L)
    {
      assert sites[..k + 1][..k] == sites[..k];
      lattice[sites[k]] := lattice[sites[k]] + 1;
      k := k + 1;
    }
    assert sites[..|sites|] == sites;
  }

  /** The occupancies of L sites after dropping one particle on each site
      listed in s, in order. */
  function Drops(s: seq<nat>, L: nat): (r: seq<int>)
    requires forall k :: 0 <= k < |s| ==> s[k] < L
    ensures |r| == L
  {
    if s == [] then seq(L, _ => 0)
    else
      var before := Drops(s[..|s| - 1], L);
      before[s[|s| - 1] := before[s[|s| - 1]] + 1]
  }

  /** Each site holds as many particles as it was drawn, none is negative,
      and together they hold one per draw. */
  lemma {:induction false} DropsCount(s: seq<nat>, L: nat)
    requires forall k :: 0 <= k < |s| ==> s[k] < L
    ensures forall x :: 0 <= x < L ==> Drops(s, L)[x] == multiset(s)[x]
    ensures NonNegative(Drops(s, L)) && Sum(Drops(s, L)) == |s|
  {
    DropsPerSite(s, L);
    DropsTotal(s, L);
  }

  /** Each site holds as many particles as it was drawn. */
  lemma {:induction false} DropsPerSite(s: seq<nat>, L: nat)
    requires forall k :: 0 <= k < |s| ==> s[k] < L
    ensures forall x :: 0 <= x < L ==> Drops(s, L)[x] == multiset(s)[x]
  {
    if s != [] {
      var init, last := s[..|s| - 1], s[|s| - 1];
      DropsPerSite(init, L);
      assert s == init + [last];
    }
  }

  /** Together the sites hold one particle per draw. */
  lemma {:induction false} DropsTotal(s: seq<nat>, L: nat)
    requires forall k :: 0 <= k < |s| ==> s[k] < L
    ensures Sum(Drops(s, L)) == |s|
  {
    if s == [] {
      SumOfZeros(Drops(s, L));
    } else {
      var init, last := s[..|s| - 1], s[|s| - 1];
      var before := Drops(init, L);
      DropsTotal(init, L);
      SumUpdate(before, last, before[last] + 1);
    }
  }

  /** `count_particles`: adds up the occupancies site by site. */
  method CountParticles(lattice: array<int>) returns (n: int)
    ensures n == Sum(lattice[..])
  {
    n := 0;
    var site := 0;
    while site < lattice.Length
      invariant 0 <= site <= lattice.Length
      invariant n == Sum(lattice[..site])
    {
      assert lattice[..site + 1][..site] == lattice[..site];
      n := n + lattice[site];
      site := site + 1;
    }
    assert lattice[..lattice.Length] == lattice[..];
  }

  // ---------------------------------------------------------------------------
  // Active sites
  // ---------------------------------------------------------------------------

  /** The sites below n holding more than z particles, in increasing order. */
  function Above(a: seq<int>, z: int, n: nat): (r: seq<nat>)
    requires n <= |a|
    ensures forall i :: 0 <= i < |r| ==> r[i] < n
  {
    if n == 0 then [] else Above(a, z, n - 1) + (if a[n - 1] > z then [n - 1] else [])
  }

  /** The sites listed by `Above` increase strictly and are exactly the sites
      below n holding more than z particles. */
  lemma {:induction false} AboveSpec(a: seq<int>, z: int, n: nat)
    requires n <= |a|
    ensures StrictlyIncreasing(Above(a, z, n))
    ensures forall x: nat :: x in Above(a, z, n) <==> x < n && a[x] > z
  {
    if n > 0 {
      AboveSpec(a, z, n - 1);
    }
  }

  /** `find_active_sites(lattice, z)`: no list at all for z == 0 (the source
      reports the problem and returns nothing); otherwise every site holding
      more than z particles, in increasing order. A negative z is accepted. */
  function ActiveSites(a: seq<int>, z: int): (r: Option<seq<nat>>)
    ensures r.None? <==> z == 0
    ensures r.Some? ==> forall i :: 0 <= i < |r.value| ==> r.value[i] < |a|
  {
    if z == 0 then None else Some(Above(a, z, |a|))
  }

  /** For z != 0 the list increases strictly and holds exactly the sites above z. */
  lemma ActiveSitesSpec(a: seq<int>, z: int)
    requires z != 0
    ensures StrictlyIncreasing(ActiveSites(a, z).value)
    ensures forall x: nat :: x in ActiveSites(a, z).value <==> x < |a| && a[x] > z
  {
    AboveSpec(a, z, |a|);
  }

  // ---------------------------------------------------------------------------
  // Toppling, as written: each active site reads its excess on the live lattice
  // ---------------------------------------------------------------------------

  /** How many of `excess` shed particles go right: the draw reduced to 0..excess. */
  function RightShare(excess: nat, draw: nat): (right: nat)
    ensures right <= excess
  {
    draw % (excess + 1)
  }

  /** Takes right + left particles off site s, then adds `right` at site rs
      and `left` at site ls, in that order (the sites may coincide). Particles
      are moved, never created or destroyed. */
  function Shed(a: seq<int>, s: nat, rs: nat, ls: nat, right: nat, left: nat): (r: seq<int>)
    requires s < |a| && rs < |a| && ls < |a|
    ensures |r| == |a| && Sum(r) == Sum(a)
  {
    var shed := AddAt(a, s, -(right + left));
    var toRight := AddAt(shed, rs, right);
    SumAddAt(a, s, -(right + left));
    SumAddAt(shed, rs, right);
    SumAddAt(toRight, ls, left);
    AddAt(toRight, ls, left)
  }

  /** One toppling of site s: its excess over z is read now, `RightShare` of it
      goes to the right neighbour and the rest to the left one; the three
      updates are applied in the source's order (on a ring of one or two sites
      the neighbours coincide with each other or with s). */
  function Topple(a: seq<int>, s: nat, z: int, draw: nat): (r: seq<int>)
    requires s < |a| && a[s] > z
    ensures |r| == |a| && Sum(r) == Sum(a)
  {
    var excess := a[s] - z;
    var right := RightShare(excess, draw);
    Shed(a, s, Right(s, |a|), Left(s, |a|), right, excess - right)
  }

  /** Toppling s takes particles from no other site, and changes no site other
      than s and its two neighbours. */
  lemma ToppleOthers(a: seq<int>, s: nat, z: int, draw: nat)
    requires s < |a| && a[s] > z
    ensures var r := Topple(a, s, z, draw);
      && (forall x :: 0 <= x < |a| && x != s ==> r[x] >= a[x])
      && (forall x :: 0 <= x < |a| && x != s && x != Right(s, |a|) && x != Left(s, |a|) ==> r[x] == a[x])
  {
  }

  /** Right after toppling, a site on a ring of two or more sites holds exactly
      z; on a ring of one site every shed particle comes straight back. The
      two neighbours gain what the draw assigns them. */
  lemma ToppleLeavesThreshold(a: seq<int>, s: nat, z: int, draw: nat)
    requires s < |a| && a[s] > z
    ensures var r := Topple(a, s, z, draw);
      var right := RightShare(a[s] - z, draw);
      var left := a[s] - z - right;
      && (|a| >= 2 ==> r[s] == z)
      && (|a| == 1 ==> r == a)
      && (|a| >= 3 ==>
            r[Right(s, |a|)] == a[Right(s, |a|)] + right && r[Left(s, |a|)] == a[Left(s, |a|)] + left)
      && (|a| == 2 ==> r[Right(s, |a|)] == a[Right(s, |a|)] + (a[s] - z))
  {
    var L := |a|;
    if L >= 2 {
      assert Right(s, L) != s && Left(s, L) != s;
    }
    if L >= 3 {
      assert Right(s, L) != Left(s, L);
    }
    if L == 2 {
      assert Right(s, L) == Left(s, L);
    }
  }

  /** With a non-negative threshold, toppling keeps every occupancy non-negative. */
  lemma ToppleKeepsNonNegative(a: seq<int>, s: nat, z: int, draw: nat)
    requires 0 <= z && s < |a| && a[s] > z && NonNegative(a)
    ensures NonNegative(Topple(a, s, z, draw))
  {
    var r := Topple(a, s, z, draw);
    ToppleLeavesThreshold(a, s, z, draw);
    ToppleOthers(a, s, z, draw);
    forall x | 0 <= x < |r| ensures r[x] >= 0 {
      if x != s {
        assert r[x] >= a[x];
      }
    }
  }

  /** The topplings of the sites of S, in order, each on the lattice the
      earlier ones left behind; site x uses `draw(x)`. */
  function MannaSweep(a: seq<int>, S: seq<nat>, z: int, draw: nat -> nat): (r: seq<int>)
    requires StrictlyIncreasing(S)
    requires forall i :: 0 <= i < |S| ==> S[i] < |a| && a[S[i]] > z
    ensures |r| == |a|
    decreases |S|
  {
    if S == [] then a
    else
      var s := S[0];
      var b := Topple(a, s, z, draw(s));
      ToppleOthers(a, s, z, draw(s));
      assert forall i :: 0 <= i < |S[1..]| ==> S[1..][i] == S[i + 1] && S[i + 1] != s;
      MannaSweep(b, S[1..], z, draw)
  }

  /** The sweep takes particles from no site outside S. */
  lemma {:induction false} MannaSweepKeepsOthers(a: seq<int>, S: seq<nat>, z: int, draw: nat -> nat)
    requires StrictlyIncreasing(S)
    requires forall i :: 0 <= i < |S| ==> S[i] < |a| && a[S[i]] > z
    ensures var r := MannaSweep(a, S, z, draw);
      forall x :: 0 <= x < |a| && x !in S ==> r[x] >= a[x]
    decreases |S|
  {
    if S != [] {
      var s := S[0];
      var b := Topple(a, s, z, draw(s));
      ToppleOthers(a, s, z, draw(s));
      assert forall i :: 0 <= i < |S[1..]| ==> S[1..][i] == S[i + 1] && S[i + 1] != s;
      MannaSweepKeepsOthers(b, S[1..], z, draw);
      var r := MannaSweep(b, S[1..], z, draw);
      forall x | 0 <= x < |a| && x !in S ensures r[x] >= a[x] {
        assert x !in S[1..] && x != s;
      }
    }
  }

  /** After the sweep every listed site holds at least z particles. */
  lemma {:induction false} MannaSweepRaises(a: seq<int>, S: seq<nat>, z: int, draw: nat -> nat)
    requires StrictlyIncreasing(S)
    requires forall i :: 0 <= i < |S| ==> S[i] < |a| && a[S[i]] > z
    ensures var r := MannaSweep(a, S, z, draw);
      forall i :: 0 <= i < |S| ==> r[S[i]] >= z
    decreases |S|
  {
    if S != [] {
      var s := S[0];
      var b := Topple(a, s, z, draw(s));
      assert b[s] >= z by { ToppleLeavesThreshold(a, s, z, draw(s)); }
      ToppleOthers(a, s, z, draw(s));
      assert forall i :: 0 <= i < |S[1..]| ==> S[1..][i] == S[i + 1] && S[i + 1] != s;
      var r := MannaSweep(b, S[1..], z, draw);
      assert r[s] >= b[s] by {
        MannaSweepKeepsOthers(b, S[1..], z, draw);
        assert s !in S[1..];
      }
      MannaSweepRaises(b, S[1..], z, draw);
      forall i | 1 <= i < |S| ensures r[S[i]] >= z {
        assert S[i] == S[1..][i - 1];
      }
    }
  }

  lemma {:induction false} MannaSweepConserves(a: seq<int>, S: seq<nat>, z: int, draw: nat -> nat)
    requires StrictlyIncreasing(S)
    requires forall i :: 0 <= i < |S| ==> S[i] < |a| && a[S[i]] > z
    ensures Sum(MannaSweep(a, S, z, draw)) == Sum(a)
    decreases |S|
  {
    if S != [] {
      var s := S[0];
      var b := Topple(a, s, z, draw(s));
      ToppleOthers(a, s, z, draw(s));
      assert forall i :: 0 <= i < |S[1..]| ==> S[1..][i] == S[i + 1] && S[i + 1] != s;
      MannaSweepConserves(b, S[1..], z, draw);
    }
  }

  lemma {:induction false} MannaSweepKeepsNonNegative(a: seq<int>, S: seq<nat>, z: int, draw: nat -> nat)
    requires 0 <= z && NonNegative(a)
    requires StrictlyIncreasing(S)
    requires forall i :: 0 <= i < |S| ==> S[i] < |a| && a[S[i]] > z
    ensures NonNegative(MannaSweep(a, S, z, draw))
    decreases |S|
  {
    if S != [] {
      var s := S[0];
      var b := Topple(a, s, z, draw(s));
      ToppleKeepsNonNegative(a, s, z, draw(s));
      ToppleOthers(a, s, z, draw(s));
      assert forall i :: 0 <= i < |S[1..]| ==> S[1..][i] == S[i + 1] && S[i + 1] != s;
      MannaSweepKeepsNonNegative(b, S[1..], z, draw);
    }
  }

  /** One step of `parallel_manna_update` for z != 0: topple, in increasing
      order, every site active at the start of the step. */
  function MannaStep(a: seq<int>, z: int, draw: nat -> nat): (r: seq<int>)
    requires z != 0
    ensures |r| == |a|
  {
    ActiveSitesAbove(a, z);
    MannaSweep(a, ActiveSites(a, z).value, z, draw)
  }

  /** The sites listed at the start of a step are valid and above the threshold. */
  lemma ActiveSitesAbove(a: seq<int>, z: int)
    requires z != 0
    ensures StrictlyIncreasing(ActiveSites(a, z).value)
    ensures var S := ActiveSites(a, z).value;
      forall i :: 0 <= i < |S| ==> S[i] < |a| && a[S[i]] > z
  {
    ActiveSitesSpec(a, z);
    var S := ActiveSites(a, z).value;
    forall i | 0 <= i < |S| ensures S[i] < |a| && a[S[i]] > z {
      assert S[i] in S;
    }
  }

  lemma MannaStepConserves(a: seq<int>, z: int, draw: nat -> nat)
    requires z != 0
    ensures Sum(MannaStep(a, z, draw)) == Sum(a)
  {
    ActiveSitesAbove(a, z);
    MannaSweepConserves(a, ActiveSites(a, z).value, z, draw);
  }

  lemma MannaStepKeepsNonNegative(a: seq<int>, z: int, draw: nat -> nat)
    requires 0 < z && NonNegative(a)
    ensures NonNegative(MannaStep(a, z, draw))
  {
    ActiveSitesAbove(a, z);
    MannaSweepKeepsNonNegative(a, ActiveSites(a, z).value, z, draw);
  }

  /** Within one step, every site active at its start ends the step with at
      least z particles, and every other site ends with at least what it had. */
  lemma MannaStepBounds(a: seq<int>, z: int, draw: nat -> nat)
    requires z != 0
    ensures var r := MannaStep(a, z, draw);
      && (forall x :: 0 <= x < |a| && a[x] > z ==> r[x] >= z)
      && (forall x :: 0 <= x < |a| && a[x] <= z ==> r[x] >= a[x])
  {
    var S := ActiveSites(a, z).value;
    var r := MannaStep(a, z, draw);
    ActiveSitesSpec(a, z);
    ActiveSitesAbove(a, z);
    MannaSweepRaises(a, S, z, draw);
    MannaSweepKeepsOthers(a, S, z, draw);
    forall x | 0 <= x < |a| && a[x] > z ensures r[x] >= z {
      assert x in S;
      var i :| 0 <= i < |S| && S[i] == x;
    }
  }

  /** The lattice after `n` more steps starting at step number t: nothing at
      all for z == 0, and no further step once no site is active. */
  function MannaEvolve(a: seq<int>, n: nat, z: int, draws: nat -> nat -> nat, t: nat): (r: seq<int>)
    ensures |r| == |a|
    decreases n
  {
    if n == 0 || z == 0 || ActiveSites(a, z).value == [] then a
    else MannaEvolve(MannaStep(a, z, draws(t)), n - 1, z, draws, t + 1)
  }

  lemma {:induction false} MannaEvolveConserves(a: seq<int>, n: nat, z: int, draws: nat -> nat -> nat, t: nat)
    ensures Sum(MannaEvolve(a, n, z, draws, t)) == Sum(a)
    decreases n
  {
    if n == 0 || z == 0 || ActiveSites(a, z).value == [] {
      MannaEvolveIdle(a, n, z, draws, t);
    } else {
      var b := MannaStep(a, z, draws(t));
      MannaEvolveUnfold(a, n, z, draws, t);
      MannaStepConserves(a, z, draws(t));
      MannaEvolveConserves(b, n - 1, z, draws, t + 1);
    }
  }

  lemma {:induction false} MannaEvolveKeepsNonNegative(a: seq<int>, n: nat, z: int,
                                                       draws: nat -> nat -> nat, t: nat)
    requires 0 <= z && NonNegative(a)
    ensures NonNegative(MannaEvolve(a, n, z, draws, t))
    decreases n
  {
    if n == 0 || z == 0 || ActiveSites(a, z).value == [] {
      MannaEvolveIdle(a, n, z, draws, t);
    } else {
      var b := MannaStep(a, z, draws(t));
      assert NonNegative(b) by { MannaStepKeepsNonNegative(a, z, draws(t)); }
      assert NonNegative(MannaEvolve(b, n - 1, z, draws, t + 1)) by {
        MannaEvolveKeepsNonNegative(b, n - 1, z, draws, t + 1);
      }
      MannaEvolveUnfold(a, n, z, draws, t);
    }
  }

  /** The source does not reject a negative threshold, and then occupancies go
      negative: on [0, 0] with z = -1 both sites are active, and with both
      draws 0 one step leaves [1, -1]. */
  lemma NegativeThresholdBreaksNonNegativity()
    ensures MannaEvolve([0, 0], 1, -1, _ => _ => 0, 0) == [1, -1]
  {
    var a := [0, 0];
    var draw: nat -> nat := _ => 0;
    assert ActiveSites(a, -1).value == [0, 1] by {
      var S := ActiveSites(a, -1).value;
      ActiveSitesSpec(a, -1);
      assert 0 in S && 1 in S;
      MemberAt(S, 2);
      assert |S| == 2;
    }
    var b := Topple(a, 0, -1, 0);
    assert b == [-1, 1];
    var c := Topple(b, 1, -1, 0);
    assert c == [1, -1];
    assert MannaSweep(a, [0, 1], -1, draw) == c;
  }

  /** The excess is read on the live lattice. On [2, 2, 0, 0] with z = 1 and
      every draw 1, sites 0 and 1 are active with one particle over z each.
      Site 0 topples first and sends its particle right, so site 1 then holds
      3 and sheds 2 (one each way), not the 1 it had over z at the start. */
  lemma LiveExcessExample()
    ensures ActiveSites([2, 2, 0, 0], 1).value == [0, 1]
    ensures MannaStep([2, 2, 0, 0], 1, _ => 1) == [2, 1, 1, 0]
  {
    var a := [2, 2, 0, 0];
    var draw: nat -> nat := _ => 1;
    assert Above(a, 1, 2) == [0, 1];
    assert Above(a, 1, 3) == [0, 1];
    var b := Topple(a, 0, 1, 1);
    assert b == [1, 3, 0, 0];
    var c := Topple(b, 1, 1, 1);
    assert c == [2, 1, 1, 0];
    assert MannaSweep(a, [0, 1], 1, draw) == MannaSweep(b, [1], 1, draw);
  }

  // ---------------------------------------------------------------------------
  // The in-place update
  // ---------------------------------------------------------------------------

  /** `parallel_manna_update`: for z == 0 the source reports the problem and
      returns; otherwise it runs `timesteps` steps (none when `timesteps` is
      negative, as `range` gives), or fewer once no site is active, toppling
      in place. Step t splits with the draws `draws(t)`. */
  method ParallelMannaUpdate(lattice: array<int>, timesteps: int, z: int, draws: nat -> nat -> nat)
    modifies lattice
    ensures lattice[..] == MannaEvolve(old(lattice[..]), if timesteps < 0 then 0 else timesteps, z, draws, 0)
    ensures Sum(lattice[..]) == Sum(old(lattice[..]))
    ensures 0 <= z && NonNegative(old(lattice[..])) ==> NonNegative(lattice[..])
  {
    var steps: nat := if timesteps < 0 then 0 else timesteps;
    if z == 0 {
      return;
    }
    RunSteps(lattice, steps, z, draws);
    MannaEvolveConserves(old(lattice[..]), steps, z, draws, 0);
    if 0 <= z && NonNegative(old(lattice[..])) {
      MannaEvolveKeepsNonNegative(old(lattice[..]), steps, z, draws, 0);
    }
  }

  /** The time loop of `parallel_manna_update` once z != 0. */
  method RunSteps(lattice: array<int>, timesteps: nat, z: int, draws: nat -> nat -> nat)
    requires z != 0
    modifies lattice
    ensures lattice[..] == MannaEvolve(old(lattice[..]), timesteps, z, draws, 0)
  {
    var t := 0;
    ghost var rest := timesteps;
    while t < timesteps
      invariant 0 <= t <= timesteps && rest == timesteps - t
      invariant MannaEvolve(lattice[..], rest, z, draws, t) == MannaEvolve(old(lattice[..]), timesteps, z, draws, 0)
    {
      var next := t + 1;
      ghost var left := rest - 1;
      var stopped := StepOnce(lattice, rest, left, z, draws, t, next);
      if stopped {
        break;
      }
      t, rest := next, left;
    }
    MannaEvolveIdle(lattice[..], rest, z, draws, t);
  }

  /** One pass of the time loop: stop when no site is active, otherwise topple
      every active site. The caller supplies the counters of the next pass,
      m == n - 1 and u == t + 1. */
  method StepOnce(lattice: array<int>, ghost n: nat, ghost m: nat, z: int,
                  draws: nat -> nat -> nat, t: nat, ghost u: nat)
    returns (stopped: bool)
    requires z != 0 && n > 0 && m == n - 1 && u == t + 1
    modifies lattice
    ensures stopped <==> ActiveSites(old(lattice[..]), z).value == []
    ensures stopped ==> lattice[..] == old(lattice[..])
    ensures !stopped ==> MannaEvolve(old(lattice[..]), n, z, draws, t)
                         == MannaEvolve(lattice[..], m, z, draws, u)
  {
    var activeSites := ActiveSites(lattice[..], z).value;
    if |activeSites| == 0 {
      return true;
    }
    ghost var before := lattice[..];
    MannaUpdateOnce(lattice, z, draws(t));
    MannaEvolveShift(before, n, m, z, draws, t, u);
    return false;
  }

  /** Taking one step moves the evolution on to the next counters. */
  lemma MannaEvolveShift(a: seq<int>, n: nat, m: nat, z: int, draws: nat -> nat -> nat, t: nat, u: nat)
    requires z != 0 && ActiveSites(a, z).value != [] && n > 0 && m == n - 1 && u == t + 1
    ensures MannaEvolve(a, n, z, draws, t) == MannaEvolve(MannaStep(a, z, draws(t)), m, z, draws, u)
  {
    MannaEvolveUnfold(a, n, z, draws, t);
    MannaEvolveArgs(MannaStep(a, z, draws(t)), n - 1, m, z, draws, t + 1, u);
  }

  lemma MannaEvolveArgs(a: seq<int>, n: nat, m: nat, z: int, draws: nat -> nat -> nat, t: nat, u: nat)
    requires n == m && t == u
    ensures MannaEvolve(a, n, z, draws, t) == MannaEvolve(a, m, z, draws, u)
  {
  }

  /** No step is taken once the steps run out or no site is active. */
  lemma MannaEvolveIdle(a: seq<int>, n: nat, z: int, draws: nat -> nat -> nat, t: nat)
    requires n == 0 || z == 0 || ActiveSites(a, z).value == []
    ensures MannaEvolve(a, n, z, draws, t) == a
  {
  }

  /** One step of the evolution, taken when there are steps left and active sites. */
  lemma MannaEvolveUnfold(a: seq<int>, n: nat, z: int, draws: nat -> nat -> nat, t: nat)
    requires 0 < n && z != 0 && ActiveSites(a, z).value != []
    ensures MannaEvolve(a, n, z, draws, t) == MannaEvolve(MannaStep(a, z, draws(t)), n - 1, z, draws, t + 1)
  {
  }

  /** The body of one step of `parallel_manna_update`. */
  method MannaUpdateOnce(lattice: array<int>, z: int, draw: nat -> nat)
    requires z != 0
    modifies lattice
    ensures lattice[..] == MannaStep(old(lattice[..]), z, draw)
  {
    var activeSites := ActiveSites(lattice[..], z).value;
    ActiveSitesAbove(lattice[..], z);
    ToppleAll(lattice, activeSites, z, draw);
  }

  /** The inner loop of `parallel_manna_update`: topple every listed site in turn. */
  method ToppleAll(lattice: array<int>, S: seq<nat>, z: int, draw: nat -> nat)
    requires StrictlyIncreasing(S)
    requires forall i :: 0 <= i < |S| ==> S[i] < lattice.Length && lattice[S[i]] > z
    modifies lattice
    ensures lattice[..] == MannaSweep(old(lattice[..]), S, z, draw)
  {
    var k := 0;
    assert S[k..] == S;
    while k < |S|
      invariant 0 <= k <= |S|
      invariant StrictlyIncreasing(S[k..])
      invariant forall i :: 0 <= i < |S[k..]| ==> S[k..][i] < lattice.Length && lattice[S[k..][i]] > z
      invariant MannaSweep(lattice[..], S[k..], z, draw) == MannaSweep(old(lattice[..]), S, z, draw)
    {
      MannaSweepUnfold(lattice[..], S[k..], z, draw);
      assert S[k..][0] == S[k] && S[k..][1..] == S[k + 1..];
      ToppleSite(lattice, S[k], z, draw(S[k]));
      k := k + 1;
    }
  }

  /** A sweep is the toppling of its first site followed by the sweep of the
      rest, whose sites are all still above the threshold. */
  lemma MannaSweepUnfold(a: seq<int>, S: seq<nat>, z: int, draw: nat -> nat)
    requires S != [] && StrictlyIncreasing(S)
    requires forall i :: 0 <= i < |S| ==> S[i] < |a| && a[S[i]] > z
    ensures var b := Topple(a, S[0], z, draw(S[0]));
      && StrictlyIncreasing(S[1..])
      && (forall i :: 0 <= i < |S[1..]| ==> S[1..][i] < |b| && b[S[1..][i]] > z)
      && MannaSweep(a, S, z, draw) == MannaSweep(b, S[1..], z, draw)
  {
    ToppleOthers(a, S[0], z, draw(S[0]));
    assert forall i :: 0 <= i < |S[1..]| ==> S[1..][i] == S[i + 1] && S[i + 1] != S[0];
  }

  /** The body of the inner loop for one active site. */
  method ToppleSite(lattice: array<int>, s: nat, z: int, draw: nat)
    requires s < lattice.Length && lattice[s] > z
    modifies lattice
    ensures lattice[..] == Topple(old(lattice[..]), s, z, draw)
  {
    var L := lattice.Length;
    var right := RightShare(lattice[s] - z, draw);
    var left := lattice[s] - z - right;
    lattice[s] := lattice[s] - (right + left);
    lattice[(s + 1) % L] := lattice[(s + 1) % L] + right;
    lattice[(s - 1) % L] := lattice[(s - 1) % L] + left;
  }

  /** `manna_activity`: the fraction of sites holding more than Z particles.
      Z == 0 yields no site list and the source fails on it; a lattice with no
      sites divides by zero. */
  function MannaActivity(a: seq<int>, z: int): (r: Result<real>)
    ensures z == 0 <==> r == Err(NoActiveSiteList)
    ensures z != 0 && a == [] <==> r == Err(DivisionByZero)
    ensures r.Ok? ==> 0.0 <= r.value <= 1.0
    ensures r.Ok? ==> r.value * (|a| as real) == |ActiveSites(a, z).value| as real
  {
    if z == 0 then Err(NoActiveSiteList)
    else if |a| == 0 then Err(DivisionByZero)
    else
      var A := ActiveSites(a, z).value;
      ActiveCountAtMostSize(a, z);
      FractionBounds(|A|, |a|);
      Ok((|A| as real) / (|a| as real))
  }

  lemma ActiveCountAtMostSize(a: seq<int>, z: int)
    requires z != 0
    ensures |ActiveSites(a, z).value| <= |a|
  {
    ActiveSitesSpec(a, z);
    StrictlyIncreasingBound(ActiveSites(a, z).value, |a|);
  }
}
