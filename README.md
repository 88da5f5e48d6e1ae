# Lattice-gas simulator core in Dafny

A model of the simulation engine behind a study of hidden order in two
particle-hopping models on a one-dimensional periodic ring, and of the
pattern counting behind its information-density observable.

- **Conserved Lattice Gas (CLG)**, `Clg` in `clg.dfy`. Each site holds 0 or 1
  particle. An occupied site is active when exactly one of its two neighbours
  holds a particle. An active site hops into its empty neighbour.
  - Before a synchronous step, `fix_competition` deactivates one site of every
    pair of active sites two apart and of the seam pairs (0, L-2) and (1, L-1).
  - In the randomized mode a single active site moves per step.
- **Manna sandpile**, `Manna` in `manna.dfy`. A site holding more than the
  threshold z is active. It sheds its excess over z, split at random between
  its two neighbours.
- **LZ78 pattern counting**, `Compression` in `compression.dfy`:
  - Manna occupancies are clamped to one digit, in place.
  - The configuration is parsed into Lempel–Ziv 1978 patterns, which are counted.
  - `cid` dispatches on the model and draws its reference configuration.
- **Checkpoint index**, `Simulator` in `simulator.dfy`: `create_index`, the
  prefix sums of the timestep increments.
- `Lattice` in `lattice.dfy` holds what these share:
  - the error outcomes;
  - lattice totals;
  - ring adjacency `(s + 1) % L` and `(s - 1) % L`, with Python's non-negative
    remainder.

## How the model works

- **Lattices and updates.**
  - The source keeps lattices in float arrays whose values are always whole
    numbers. The model uses `int` arrays.
  - Each in-place operation is a method on an `array<int>`. It is proved
    against a function on sequences: `Evolve`/`Step`/`Sweep`/`Hop` for the CLG,
    and `MannaEvolve`/`MannaStep`/`MannaSweep`/`Topple` for Manna.
  - Conservation, exclusion and non-negativity are proved about those functions.
- **Randomness is an input.** The model takes:
  - the sample of occupied sites (CLG creation);
  - the drawn site of each particle (Manna creation);
  - a coin per contending pair and per seam pair for each step;
  - a pick per step in randomized mode, reduced modulo the number of active
    sites;
  - a raw draw per step and site, reduced to `0..excess`;
  - the reference bits and the shuffle order of `cid`.
- **Updates read the live lattice, as the code does.**
  - A CLG move reads its direction after the earlier moves of the same step
    (`clg.py:112-113`).
  - A Manna toppling reads its excess after the particles it received earlier
    in the same step (`manna.py:108`).
  - Exclusion still holds for the CLG (`SyncStepKeepsBinary`).
  - `LiveReadExample` and `LiveExcessExample` show where the result differs
    from an update read on the pre-step lattice.
  - `SeparatedPairExample` shows a pair that competition resolution breaks
    although its two moves would not collide.
- **The source's own comments and its code disagree** on two points. The
  model follows the code on both.
  - The header of `parallel_update` (`clg.py:90-94`) says it propagates the
    lattice by a parallel update. The docstring of `parallel_manna_update`
    (`manna.py:79-85`) says it updates all sites in parallel. Both loops
    change the lattice they read (`clg.py:112-113`, `manna.py:108-113`), so
    later moves of a step see the earlier ones, as above.
  - The message printed at `manna.py:67` and `manna.py:96` says the threshold
    "cannot be less than 1". The test before it rejects only `z == 0`. A
    negative threshold is accepted, and occupancies then go negative
    (`NegativeThresholdBreaksNonNegativity`).
- **Failures are `Err` values.**
  - Python failures become `Err` values of `Lattice.Result`: a division by
    zero, a `None` result used later, comparing a character with 9, and an
    unbound local.
  - `None` results become `Option.None` or an `Err`.

## Model

| member | source | states |
|---|---|---|
| Lattice.Right | clg.py:40 | the right neighbour of s on a ring of L sites is `(s + 1) % L`, a valid site |
| Lattice.Left | clg.py:40 | the left neighbour is `(s - 1) % L` with the non-negative remainder of Python's `%`, a valid site |
| Lattice.StepIsNeighbour | clg.py:106 | adding the direction +1 or -1 modulo L lands on the right or left neighbour respectively |
| Clg.CreateClgLattice | clg.py:15-25 | a negative L fails first, as `np.zeros` does; a negative n fails, as `random.sample` does; for 0 <= n < L exactly the sampled sites hold 1 and the rest 0; for n == L every site holds 1; both are binary with total n; for n > L the lattice is all zeros |
| Clg.PlaceSample | clg.py:18-19 | the n < L loop: a fresh lattice of L sites holding 1 exactly on the sampled sites and 0 elsewhere, binary, with total equal to the sample size |
| Clg.FillAll | clg.py:20-22 | the n == L loop: a fresh lattice of L sites, every site holding 1, total L |
| Clg.IsActive | clg.py:39-40 | a site is active when it is occupied and exactly one of its two neighbours holds 1 |
| Clg.ActiveBelow | clg.py:38-41 | the scan of `find_active_sites` up to a bound: the active sites below it, in increasing order, each below the bound |
| Clg.ActiveSites | clg.py:35-42 | the sites of the lattice that are active, in site order, each a valid site |
| Clg.ActiveSitesSpec | clg.py:35-42 | the active-site list is strictly increasing and holds exactly the occupied sites where exactly one neighbour holds 1 |
| Clg.UniformLatticeIsAbsorbing | clg.py:35-42 | an all-empty or all-full lattice has no active site |
| Clg.NoActiveSitesBelowThree | clg.py:35-42 | a ring of fewer than three sites has no active site |
| Clg.EmptyNeighbor | clg.py:51-55 | the direction is -1 when the right neighbour holds 1 and +1 otherwise; it is always one of the two |
| Clg.Target | clg.py:51-55 | the site a move goes to is the left neighbour when the right neighbour holds 1, otherwise the right neighbour |
| Clg.ActiveTargetIsEmpty | clg.py:39-40 | on a binary lattice an active site holds 1, its target is empty, and when it hops left its right neighbour is occupied |
| Clg.Loser | clg.py:70-74 | the member of contending pair i that the pair's coin deactivates: the site itself when the coin is true, its cyclic successor in the list otherwise |
| Clg.PairLosers | clg.py:69-74 | the losers of the contending pairs among the first k list positions |
| Clg.SeamLoser | clg.py:75-84 | for a seam pair with both members active, the member its coin deactivates; otherwise nothing |
| Clg.Deactivated | clg.py:68-84 | the whole deactivation set: the losers of all contending pairs, plus the losers of the seam pairs (0, L-2) and (1, L-1) |
| Clg.Survivors | clg.py:85-87 | the active list without the deactivated sites, in its order |
| Clg.CollectDeactivated | clg.py:66-84 | the collected set is exactly one coin-chosen member of each cyclically consecutive pair two apart, plus one of each complete seam pair |
| Clg.RemoveFirst | clg.py:86 | `list.remove`: removing a member shortens the list by one; an absent element leaves it as it is |
| Clg.FirstIndex | clg.py:86 | the position of the first occurrence of a member: it holds the member and no earlier position does |
| Clg.RemoveFirstDropsFirst | clg.py:86 | `list.remove` drops exactly the first occurrence and keeps the rest in order |
| Clg.RemoveFirstIsWithout | clg.py:86 | on a list without repetitions, `list.remove` of x after filtering by X is filtering by X plus x |
| Clg.RemoveEach | clg.py:85-86 | removing every member of the set, in any order, leaves exactly the listed sites outside the set, in their order |
| Clg.FixCompetition | clg.py:65-87 | the result is the active list without the deactivated set |
| Clg.SurvivorsResolveContention | clg.py:65-87 | survivors are a strictly increasing sublist of the input; no consecutive pair two apart and no seam pair survives whole; the empty list stays empty |
| Clg.PairLoses | clg.py:69-74 | a consecutive pair two apart contributes one of its members to the deactivated set |
| Clg.SeamsBroken | clg.py:75-84 | neither (0, L-2) nor (1, L-1) survives whole |
| Clg.SurvivorsRemoveOnlyContenders | clg.py:65-87 | a site is removed only when it belongs to a pair two apart or a complete seam pair |
| Clg.GapNotActive | clg.py:39-40 | on a binary lattice, the site between two active sites two apart is not active |
| Clg.TwoApartLoses | clg.py:69-74 | on a binary lattice, of two active sites two apart one is deactivated, since they are consecutive in the active list |
| Clg.SurvivorsNotTwoApart | clg.py:65-87 | on a binary lattice no two survivors are two apart |
| Clg.SameTargetIsContention | clg.py:69-84 | two distinct sites with the same target are two apart or form a seam pair |
| Clg.SurvivorsSeparated | clg.py:65-87 | on a binary lattice the survivors contain no pair two apart and no seam pair |
| Clg.CompetitionSafety | clg.py:65-87 | on a binary lattice distinct survivors target distinct sites, read at the start of the step |
| Clg.Hop | clg.py:105-106 | one move on a lattice value: take a particle off the site, read the direction on the lattice as it now is, add the particle at the target; the length is kept |
| Clg.Sweep | clg.py:110-113 | the moves of the listed sites in list order, each on the lattice the earlier ones left; the length is kept |
| Clg.SyncStep | clg.py:108-113 | a synchronous step: competition resolution on the active sites, then the sweep of the survivors |
| Clg.RandomStep | clg.py:103-106 | a randomized step: the move of the picked active site alone |
| Clg.Step | clg.py:103-113 | one step of the mode chosen by `randomize` |
| Clg.Evolve | clg.py:96-113 | the lattice after the time loop: steps are taken until the count runs out or no site is active |
| Clg.MoveParticle | clg.py:105-106 | one move: decrement the site, then read the direction on the updated lattice and increment the target |
| Clg.MoveSurvivors | clg.py:110-113 | the survivors move one after another, each on the lattice the earlier moves left |
| Clg.UpdateOnce | clg.py:103-113 | one step is the picked site's move (randomized) or competition resolution followed by the survivors' moves (synchronous) |
| Clg.StepOnce | clg.py:99-113 | a pass of the time loop stops, lattice unchanged, exactly when no site is active; otherwise it takes one step of the evolution |
| Clg.RunSteps | clg.py:98-113 | the time loop takes `timesteps` steps or stops at the first lattice without active sites |
| Clg.ParallelUpdate | clg.py:96-113 | the lattice becomes its evolution, with a negative `timesteps` taking no step as `range` does; the particle total is unchanged; a binary lattice stays binary |
| Clg.EvolveIdle | clg.py:98-102 | with no steps left or no active site, the lattice is left as it is |
| Clg.HopConserves | clg.py:105-106 | a move keeps the particle total |
| Clg.SweepConserves | clg.py:110-113 | moving any list of sites keeps the particle total |
| Clg.StepConserves | clg.py:103-113 | a step of either mode keeps the particle total |
| Clg.EvolveConserves | clg.py:96-113 | any number of steps of either mode keeps the particle total |
| Clg.SyncStepKeepsBinary | clg.py:108-113 | a synchronous step keeps every site at 0 or 1, although directions are read on the live lattice |
| Clg.RandomStepMovesOneParticle | clg.py:103-106 | in randomized mode the picked site goes from 1 to 0, one of its neighbours goes from 0 to 1, and no other site changes |
| Clg.StepKeepsBinary | clg.py:103-113 | a step of either mode keeps a binary lattice binary |
| Clg.EvolveKeepsBinary | clg.py:96-113 | any number of steps of either mode keeps a binary lattice binary |
| Clg.ClgActivity | clg.py:115-116 | the activity is the active count over L, in [0, 1]; the empty lattice divides by zero |
| Clg.ActiveCountAtMostSize | clg.py:115-116 | there are at most L active sites |
| Clg.LiveReadExample | clg.py:110-113 | on 1 0 0 0 1 a synchronous step gives 1 1 0 0 0; read before the step, site 4 would have hopped left |
| Clg.SeparatedPairExample | clg.py:69-74 | on 0 1 1 1 0 the active sites 1 and 3 hop to different empty sites, yet one of them is deactivated |
| Manna.CreateMannaLattice | manna.py:27-31 | a negative L fails first, as `np.zeros` does; with particles to place and no site to draw, it fails as `random.randint(0, -1)` does; otherwise each site holds the number of draws that chose it, entries are non-negative and total n, or 0 for a negative n |
| Manna.DropParticles | manna.py:27-31 | the creation loop: a fresh lattice equal to `Drops` of the drawn sites, one particle added per draw |
| Manna.Drops | manna.py:28-30 | the occupancies after dropping one particle on each listed site, in order; one entry per site |
| Manna.DropsCount | manna.py:28-30 | each site holds as many particles as draws chose it; no entry is negative; the total is the number of draws |
| Manna.DropsPerSite | manna.py:28-30 | by induction on the draws: each site holds exactly as many particles as draws chose it |
| Manna.DropsTotal | manna.py:28-30 | by induction on the draws: the occupancies add up to the number of draws |
| Manna.CountParticles | manna.py:47-50 | the count is the sum of all entries |
| Manna.Above | manna.py:70-75 | the scan for sites above z, up to a bound: every listed site lies below the bound |
| Manna.ActiveSites | manna.py:66-75 | no list exactly when z == 0; otherwise a list of valid sites |
| Manna.ActiveSitesSpec | manna.py:70-75 | for z != 0 the list is strictly increasing and holds exactly the sites above z; a negative z is accepted |
| Manna.RightShare | manna.py:108 | the share sent right lies in 0..excess |
| Manna.Shed | manna.py:111-113 | a site gives up its two shares and its neighbours gain them; the length and the total are kept |
| Manna.Topple | manna.py:108-113 | a toppling keeps the particle total |
| Manna.ToppleOthers | manna.py:111-113 | a toppling takes nothing from other sites and changes only the site and its two neighbours |
| Manna.ToppleLeavesThreshold | manna.py:108-113 | right after toppling, the site holds exactly z on a ring of two or more sites; the neighbours gain their shares; a ring of one site is unchanged |
| Manna.ToppleKeepsNonNegative | manna.py:108-113 | with z >= 0 a toppling keeps all entries non-negative |
| Manna.MannaSweep | manna.py:107-113 | the topplings of the listed sites in list order, each on the lattice the earlier ones left; the length is kept |
| Manna.MannaSweepUnfold | manna.py:107-113 | after the first toppling, the remaining listed sites are still above z |
| Manna.MannaSweepKeepsOthers | manna.py:107-113 | sites outside the list never lose particles during the sweep |
| Manna.MannaSweepRaises | manna.py:107-113 | after the sweep every listed site holds at least z |
| Manna.MannaSweepConserves | manna.py:107-113 | the sweep keeps the particle total |
| Manna.MannaSweepKeepsNonNegative | manna.py:107-113 | with z >= 0 the sweep keeps all entries non-negative |
| Manna.ActiveSitesAbove | manna.py:102 | the sites listed at the start of a step are increasing, valid and above z |
| Manna.MannaStep | manna.py:101-113 | one step: the sweep of the sites active at its start |
| Manna.MannaEvolve | manna.py:95-113 | the lattice after the time loop: nothing for z == 0, otherwise steps until the count runs out or no site is active |
| Manna.MannaStepConserves | manna.py:101-113 | a step keeps the particle total |
| Manna.MannaStepKeepsNonNegative | manna.py:101-113 | with z > 0 a step keeps all entries non-negative |
| Manna.MannaStepBounds | manna.py:101-113 | every site active at the start of a step ends it with at least z; every other site ends with at least what it had |
| Manna.MannaEvolveConserves | manna.py:95-113 | any number of steps keeps the particle total |
| Manna.MannaEvolveKeepsNonNegative | manna.py:95-113 | with z >= 0 any number of steps keeps all entries non-negative |
| Manna.MannaEvolveIdle | manna.py:95-106 | with z == 0, no steps left or no active site, the lattice is left as it is |
| Manna.NegativeThresholdBreaksNonNegativity | manna.py:95-113 | with z = -1, one step takes 0 0 to 1 -1 |
| Manna.LiveExcessExample | manna.py:107-113 | on 2 2 0 0 with z = 1, site 1 sheds the particle it received from site 0 as well, giving 2 1 1 0 |
| Manna.ToppleSite | manna.py:108-113 | the three updates of one toppling, in the source's order |
| Manna.ToppleAll | manna.py:107-113 | the listed sites topple one after another, on the live lattice |
| Manna.MannaUpdateOnce | manna.py:102-113 | one step topples every site active at its start |
| Manna.StepOnce | manna.py:102-113 | a pass of the time loop stops, lattice unchanged, exactly when no site is active; otherwise it takes one step |
| Manna.RunSteps | manna.py:101-113 | the time loop takes `timesteps` steps or stops at the first lattice without active sites |
| Manna.ParallelMannaUpdate | manna.py:95-113 | the lattice becomes its evolution (unchanged for z == 0), with a negative `timesteps` taking no step as `range` does; the total is unchanged; with z >= 0 non-negativity is kept |
| Manna.MannaActivity | manna.py:115-124 | z == 0 fails for lack of a list; an empty lattice divides by zero; otherwise the active count over L, in [0, 1] |
| Manna.ActiveCountAtMostSize | manna.py:124 | there are at most L active sites |
| Compression.Clamp | compression.py:19-21 | each occupancy above 9 replaced by 9, one entry per site |
| Compression.ClampSpec | compression.py:19-21 | clamping caps every entry at 9, keeps every entry of at most 9, is idempotent, and changes nothing exactly when no entry exceeds 9 |
| Compression.FlattenMannaConfiguration | compression.py:18-22 | the caller's array is clamped in place, and that same array is returned |
| Compression.IntString | compression.py:99 | `str` of an integer: at least one character, starting with a minus sign exactly when the integer is negative |
| Compression.Render | compression.py:49 | the characters of every entry's `str`, joined in site order; at least one per site |
| Compression.RenderDigits | compression.py:49 | a lattice of single digits renders one digit character per site |
| Compression.RenderInjective | compression.py:49 | two lattices of single digits with the same rendering are equal |
| Compression.ClampedRenderLength | compression.py:48-49 | a clamped non-negative lattice renders to one character per site |
| Compression.ParseStep | compression.py:54-58 | one character keeps the recorded patterns distinct and prefix-closed, and the text read so far equal to the patterns plus the current pattern |
| Compression.Lz78Parse | compression.py:50-61 | the result is the LZ78 parse: patterns that concatenate to the input, none empty, only the last repeating an earlier one, each proper prefix an earlier pattern |
| Compression.Lz78ParseUnique | compression.py:50-61 | a string has only one LZ78 parse |
| Compression.RepeatEndsParse | compression.py:59-60 | a pattern that repeats an earlier one ends the string |
| Compression.PatternInPlace | compression.py:54-58 | each pattern is the slice of the input right after the patterns before it |
| Compression.PatternExtendsEarlier | compression.py:54-58 | each pattern is one character, or an earlier pattern extended by one character |
| Compression.PatternCountBound | compression.py:54-61 | there are at most as many patterns as characters |
| Compression.ParseOfEmpty | compression.py:54-61 | the empty string parses to no patterns, and only to that |
| Compression.ParseOf1011 | compression.py:54-61 | "1011" parses to "1", "0", "11", and only to that |
| Compression.Lz78CountSpec | compression.py:68-69 | the pattern count of a string is unique and at most its length |
| Compression.Lz78 | compression.py:41-61 | clg: text is parsed and anything else fails; manna: a lattice is clamped in place and parsed, the empty text gives no patterns and other text fails; other models fail |
| Compression.NumberOfPatterns | compression.py:68-69 | the count of the `lz_78` parse, failing where `lz_78` fails; for a non-negative Manna lattice at most L |
| Compression.ReferenceString | compression.py:91 | the CLG reference has the configuration's length and only the characters '0' and '1' |
| Compression.Permute | compression.py:97-98 | the shuffled copy has the same length, every entry comes from the clamped lattice, and each entry occurs as often as in it |
| Compression.PermutationReaches | compression.py:98 | a shuffle order reaches every position of the array |
| Compression.GatherKeepsMultiset | compression.py:97-98 | gathering the entries of an array by a shuffle order keeps each entry as often as the array holds it |
| Compression.Cid | compression.py:88-106 | the two counts `cid` divides: the configuration's pattern count and the reference count (drawn string, shuffled copy or L); other models fail; the caller's array is left unchanged except when the Manna model clamps it |
| Simulator.CreateIndex | simulator.py:106-110 | length len(T)+1, first entry 0, each entry the previous plus the next increment, entry i the sum of the first i increments, the last the total |
| Simulator.PrefixSumsIncrease | simulator.py:106-110 | with non-negative increments the index never decreases |

## Left out

- Messages printed for bad input (`clg.py:24`, `manna.py:67`, `manna.py:96`,
  `compression.py:45`, `compression.py:105`) are output only. The model keeps
  the value returned with them: a zero lattice, nothing, or an `Err`.
- The random generators are not modelled; their draws are inputs (see above).
  - `random.uniform(0, 1) < 0.5` becomes a boolean coin.
  - `random.choice` becomes a pick reduced modulo the list length.
  - `random.randint(0, excess)` becomes a draw reduced modulo `excess + 1`.
  - `random.sample`, `random.randint(0, L-1)`, `np.random.randint(2, ...)`
    and `np.random.shuffle` become a distinct sample, a site sequence, a bit
    function and a permutation.
  - The probability distributions of these draws are not modelled.
- Compression.Cid: returns the two integer counts, not the floating-point
  ratio of `n log2 n` terms (`compression.py:92`, `101`, `103`). The ratio is
  undefined for a count of 0 or 1, and the source raises no error for it.
- Compression.Cid: for the Manna model with the empty text and shuffling, the
  model returns the counts (0, 0). Shuffling the zero-dimensional array
  `np.array('')` is not modelled.
- Compression.Lz78: with a model other than "clg" or "manna" the source fails
  on an unbound local variable. The model returns `Err(UnknownModel)`.
- Compression.Lz78: for Manna text, any non-empty text fails on comparing a
  character with 9, whatever it contains.
- Clg.FixCompetition: requires a strictly increasing list. Its only caller
  passes the output of `find_active_sites`, which always is one. On a list
  with repetitions `list.remove` would drop only the first copy, and this is
  not modelled.
- Clg.SyncStep: has a guard that every survivor is a valid site, needed to
  state the function. `Clg.UpdateOnce` proves the guard always holds.
- Clg.RemoveFirst: removing an absent element leaves the list as it is, where
  `list.remove` raises `ValueError`. Its only caller removes sites taken from
  the list itself, so the case does not arise there.
- Clg.StepOnce and Manna.StepOnce: take the loop counters of the next pass as
  extra ghost parameters. The loops' observable behaviour is unchanged.
- Both models: float precision is not modelled. The float arrays hold whole
  numbers, and the model uses unbounded integers. Very large counts, where
  floats lose precision, are not modelled.
- The rest of `simulator.py` is not part of this model:
  - multiprocessing batch runs and sleep polling;
  - pandas data frames and CSV files;
  - the `compare_dynamical_rules` driver.
- `main.py` and `utils/data_analysis_tools.py` (plotting and file I/O) are not
  part of this model.
