# Two-colony ant simulation on a torus, in Dafny

This project models `Lab7.py`, a sequential simulation of two ant colonies, red and blue, on a
square toroidal grid. The model covers:

- **The world.** A `World` keeps:
  - the grid of cell codes (`EMPTY`, `RED`, `BLUE`, `RESOURCE`);
  - a field of scent ("smells") between 0 and 100;
  - a directory from coordinates to ants (`ants_positions`);
  - one priority list per colony, oldest ant first;
  - the resource sources, the iteration number and the eat and kill counters.
- **Each step.**
  1. Ants are spawned at the colony centres.
  2. Resources appear at the sources that have no ant on them.
  3. Every red ant acts in priority order, then every blue ant. A dead ant met in the walk is
     deleted from its list in place.
  4. The scent decays.
- **An ant.**
  - A wandering ant prefers, in this order:
    1. a neighbouring resource;
    2. an enemy;
    3. the best-smelling cells, by the best smell among empty cells;
    4. anything.
  - An ant that has eaten walks home. It leaves a trail of scent and steps towards its centre,
    preferring stronger scent among equally near cells. Nearness is the Chebyshev distance
    with each axis measured the shorter way round the torus. That is the distance the code
    evidently intends; what it computes differs (see "## Findings").
  - Acting on the chosen neighbour means moving onto a free cell (eating a resource found there), fighting an enemy (the defender loses 20, the attacker 5), or "kissing" a
    comrade (both take the average power).

Files and modules:

| file | module | contents |
|---|---|---|
| `cells.dfy` | `Cells` | cell codes, breeds, `opposite`, the two ant states |
| `neighbourhood.dfy` | `Neighbourhood` | torus wrapping, the eight neighbours, numpy-style masks, axis distances, the candidate indices of `choose_position` and what they mean |
| `scent.dfy` | `Scent` | scent deposit and decay on the field as a value, bounds and totals |
| `colony.dfy` | `Colony` | the `World` and `Ant` classes, whose methods change the grid, the smells, the directory, the lists and the ants in place |

Each `World` method that changes state keeps the invariant `Valid()`, which has these parts:
- **Directory.** The grid shows a breed at a cell exactly when an ant is filed there. That ant is alive, stands at that cell and is of that breed. Every live ant is filed under its own position.
- **Priority lists.** They hold each colony's ants without repetition, and every live ant is in its own colony's list.
- **Power.** Every live ant has positive power at most its cap: 100, or 200 for a red ant of an asymmetric world.
- **Scent.** Every cell's scent lies in [0, 100].
- **Sources.** Every resource source is a legal source cell.

Notes on the model:
- **Randomness.** Coins and new source cells are parameters. The neighbour index an ant picks is any element of its candidate set (the `:|` in `Colony.World.Play`).
- **Kept as in the source:**
  - the second blue centre is `(x + 1, x)`, with y taken from the first centre's x;
  - blue ants are never `different`;
  - the arrival test next to the centre uses a plain, non-toroidal distance;
  - the best-smell and nearest-distance masks are not limited to empty cells.
- **Where the model follows the code rather than its comments.** The docstring of `eat` says power
  cannot exceed 100. The code caps it at `100 + 100 * int(different)`, and the model follows
  the code.

## Model

| member | source | states |
|---|---|---|
| Cells.Opposite | Lab7.py:16-23 | a cell has an opposite exactly when it is a breed, and the opposite is the other breed |
| Cells.OppositeInvolutive | Lab7.py:16-23 | the opposite of the opposite breed is the breed itself |
| Neighbourhood.WrapOnce | Lab7.py:110-117 | one wrap lands in [0, size) and differs from the input by 0 or one size |
| Neighbourhood.Wrap | Lab7.py:109-119 | the wrapped position is on the grid |
| Neighbourhood.WrapInGrid | Lab7.py:109-119 | a position already on the grid is not moved |
| Neighbourhood.OffsetsAreRowMajor | Lab7.py:209-211 | offset i is cell i of the row-major 3x3 block with its centre (index 4) skipped |
| Neighbourhood.Neighbours | Lab7.py:196-211 | there are exactly eight neighbours and each is on the grid |
| Neighbourhood.NeighboursAreOffsets | Lab7.py:196-211 | neighbour i is the cell at offset i, in {-1,0,1} on each axis, wrapped once |
| Neighbourhood.NeighboursExcludeSelf | Lab7.py:193-211 | on a grid of side at least 3 no neighbour is the cell itself |
| Neighbourhood.TorusWrapsAtEdges | Lab7.py:197-202 | the neighbour at x-1 of a cell with x = 0 has x = size-1, and the one at x+1 of a cell with x = size-1 has x = 0 |
| Neighbourhood.Mask | Lab7.py:340 | the mask is true exactly at the entries equal to the value, for cell codes (340, 350), smells (353) and distances (384) alike |
| Neighbourhood.Where | Lab7.py:342 | an index is chosen from exactly the positions where the mask is true |
| Neighbourhood.Indices | Lab7.py:356 | randint(0, n) ranges over exactly 0..n-1 |
| Neighbourhood.MaxOver | Lab7.py:353 | the masked maximum is one of the masked values and bounds all of them |
| Neighbourhood.MinOver | Lab7.py:384 | the masked minimum is one of the masked values and is bounded by all of them |
| Neighbourhood.MaskHit | Lab7.py:340-351 | `mask.sum() > 0` holds exactly when the value occurs among the entries |
| Neighbourhood.IsMaxOver | Lab7.py:353 | a value equals the masked maximum iff it bounds and is one of the masked values |
| Neighbourhood.IsMinOver | Lab7.py:384 | a value equals the masked minimum iff it is bounded by and is one of the masked values |
| Neighbourhood.WanderChoices | Lab7.py:338-356 | the candidates of a wandering ant are indices of its neighbourhood (what they are is stated by WanderChoice) |
| Neighbourhood.WanderChoice | Lab7.py:338-356 | wandering, i is a candidate iff: it is a resource when one is near; else it is an enemy when one is near; else its smell is the best smell over empty cells when one is empty; else any of the eight |
| Neighbourhood.WanderFallbackIsOwnBreed | Lab7.py:354-356 | a wandering ant picks among all eight only when every neighbour is an ant of its own breed |
| Neighbourhood.WanderMayPickOwnBreed | Lab7.py:350-353 | with one empty neighbour, no cell smelling, a cell of the ant's own breed is a candidate |
| Neighbourhood.AxisDistance | Lab7.py:375-378 | the corrected axis distance is non-negative, at most each of the three gaps \|a-c\|, \|a+size-c\|, \|a-size-c\|, and equal to one of them |
| Neighbourhood.AxisDistanceAsWritten | Lab7.py:375-378 | the axis distance as the code computes it is at most each of the two gaps \|a-c\|, \|a+size-c\| and equal to one of them; the third gap plays no part |
| Neighbourhood.Chebyshev | Lab7.py:374-383 | the distance of a cell to the centre bounds both axis distances and equals one of them |
| Neighbourhood.NearCentre | Lab7.py:364 | the arrival test holds iff the cell differs from the centre by -1, 0 or 1 on each axis, with no wrapping |
| Neighbourhood.NearCentreIgnoresWrap | Lab7.py:364 | on a 4-cell grid, (0, 2) is one step round the torus from (3, 2) but does not pass the arrival test |
| Neighbourhood.AxisDistanceIsToroidal | Lab7.py:374-383 | the three-way axis distance is the shorter way round the torus, symmetric and at most size/2 |
| Neighbourhood.AsWrittenWrapsOneWay | Lab7.py:374-383 | the two-way minimum the code computes wraps only when the cell lies before the centre |
| Neighbourhood.AsWrittenPrefersTheLongWay | Lab7.py:374-383 | on a 40-cell grid, red centre column 13, the code ranks column 34 nearer than 36, though 36 is nearer round the torus |
| Neighbourhood.Distances | Lab7.py:374-383 | entry i is the distance of neighbour i to the centre, with each axis the corrected AxisDistance, not the code's two-way minimum |
| Neighbourhood.NearestMask | Lab7.py:384 | the mask marks every neighbour, empty or not, at the least distance some empty neighbour has, and marks at least one |
| Neighbourhood.NearestChoices | Lab7.py:384-390 | the nearest-and-strongest candidates are indices of the neighbourhood (what they are is stated by NearestChoice) |
| Neighbourhood.NearestIsMin | Lab7.py:384 | a neighbour is at the least empty distance iff its distance equals the masked minimum |
| Neighbourhood.StrongestIsBest | Lab7.py:386-388 | some equally near cell smells iff the best smell among them is positive, and a cell has that best smell iff none as near smells stronger |
| Neighbourhood.NearestChoice | Lab7.py:384-390 | i is a candidate iff it is at the least empty distance, and it smells strongest among equally near cells whenever one of them smells |
| Neighbourhood.ReturnChoices | Lab7.py:369-392 | the candidates of a returning ant away from its centre are indices of its neighbourhood (what they are is stated by ReturnChoice) |
| Neighbourhood.ReturnChoice | Lab7.py:369-392 | returning away from the centre, i is a candidate iff it is a neighbour and, when some neighbour is empty, it is nearest and strongest as above |
| Neighbourhood.Candidates | Lab7.py:337-392 | every candidate is an index of the neighbourhood |
| Neighbourhood.WanderNonEmpty | Lab7.py:338-356 | a wandering ant always has a candidate |
| Neighbourhood.NearestNonEmpty | Lab7.py:384-390 | the nearest-and-strongest rule always leaves a candidate |
| Neighbourhood.ReturnNonEmpty | Lab7.py:369-392 | a returning ant away from its centre always has a candidate |
| Neighbourhood.CandidatesNonEmpty | Lab7.py:338-392 | in every state the random choice is made from a non-empty set |
| Scent.Trail | Lab7.py:185 | the trail strength, 100 - steps * (rate + 0.01); its meaning is stated by TrailWeakens |
| Scent.TrailWeakens | Lab7.py:185 | the trail strength is 100 right after eating and falls strictly with every further step |
| Scent.Deposit | Lab7.py:184-187 | the new smell is the larger of the old smell and the trail strength |
| Scent.DepositInBounds | Lab7.py:184-187 | a deposit keeps a smell in [0, 100] |
| Scent.DecayCell | Lab7.py:251-252 | a decayed cell is never negative; it is the old value less the rate, or 0 where that went below 0 |
| Scent.DecayRow | Lab7.py:251-252 | every cell of a row decays, and only by DecayCell |
| Scent.Decayed | Lab7.py:251-252 | every row of the field decays |
| Scent.DecayInBounds | Lab7.py:250-252 | decay keeps every smell in [0, 100] |
| Scent.RowTotal | Lab7.py:250 | the sum of a row; what it says is stated by RowTotalPositive and DecayLowersRow |
| Scent.Total | Lab7.py:250 | `smells.sum()`; what it says is stated by TotalPositive and DecayLowersTotal |
| Scent.RowTotalPositive | Lab7.py:250 | a row's sum is non-negative, and positive iff some cell of it smells |
| Scent.TotalPositive | Lab7.py:250 | `smells.sum() > 0` iff some cell smells |
| Scent.DecayLowersRow | Lab7.py:251-252 | decay never raises a row's sum and strictly lowers it when a cell smells |
| Scent.DecayLowersTotal | Lab7.py:250-252 | decay never raises the field's sum and strictly lowers it when positive |
| Colony.RedCentre | Lab7.py:40 | the red centre (size//3, size//2) is on a grid of any positive size |
| Colony.BlueCentre | Lab7.py:41 | the blue centre (2*size//3+1, size//2) is on the grid once the side is at least 4 |
| Colony.SourceColumns | Lab7.py:168 | the list of source columns has size-2 entries; which ones is stated by SourceColumnsAvoidMiddle |
| Colony.SourceColumnsAvoidMiddle | Lab7.py:168 | a source column is any column except size//2-1 and size//2 |
| Colony.SourcesAvoidCentres | Lab7.py:40-41 | a source is on the grid and on neither `red_center` nor `blue_center`; the second blue centre `(x + 1, x)` of an asymmetric world is not covered and can be a source cell (at size 40, (28, 27) is one) |
| Colony.RemoveAt | Lab7.py:232 | `del ants[j]` leaves every element but ants[j], still without repetitions |
| Colony.AppendNew | Lab7.py:149 | appending a new ant keeps a list free of repetitions |
| Colony.Survivors | Lab7.py:228-236 | the surviving list is never longer than the original |
| Colony.SurvivorsSpec | Lab7.py:228-236 | an ant of the list survives iff it is not dead, and every survivor comes from the list |
| Colony.SurvivorsInOrder | Lab7.py:228-236 | any two survivors stand in the original list in the same order |
| Colony.SurvivorsExtend | Lab7.py:230-235 | one more ant of the walk joins the survivors exactly when it is not dead |
| Colony.SurvivorsNext | Lab7.py:230-235 | the ant at i-died is the i-th ant of the original list and is kept unless dead |
| Colony.BornAt | Lab7.py:151-157 | the centres that receive an ant were free, and there are no more of them than centres |
| Colony.BornAtExactly | Lab7.py:151-157 | a centre receives an ant iff it is one of the centres walked so far, it was free and its coin came up |
| Colony.StartPower | Lab7.py:318-321 | a new ant's power is 90 or 180, and 180 exactly for a red ant of an asymmetric world |
| Colony.PowerCap | Lab7.py:446-447 | the cap of eat is 100 or 200, and 200 exactly in an asymmetric world |
| Colony.StartPowerInRange | Lab7.py:318-321 | a new ant's power is 90 or 180, strictly inside (0, cap) |
| Colony.Fed | Lab7.py:445-447 | eat adds 40 unless that passes the cap, in which case the power is the cap |
| Colony.NextState | Lab7.py:358-393 | near the centre a returning ant wanders again with its step count unchanged; away from it the count grows by one; a wandering ant is unchanged |
| Colony.AverageBetween | Lab7.py:426-428 | the average lies between the two powers, keeps their sum, and leaves equal powers alone |
| Colony.World.Valid | Lab7.py:34-47 | the invariant every state-changing method keeps (directory, lists, powers, scent, sources, as listed above); its consequences are stated by LivePlaced, Resident and Vacant |
| Colony.World.BlueCentres | Lab7.py:151 | one blue centre, or two in an asymmetric world: the first is blue_center, the second (x+1, x) for blue_center = (x, y) |
| Colony.World.CentresApart | Lab7.py:40-41 | the spawning centres are on the grid and pairwise distinct |
| Colony.World.SmellField | Lab7.py:37 | the field as a value agrees with the smells array cell by cell |
| Colony.World.SmellFieldInBounds | Lab7.py:37 | the field as a value is within [0, 100] when the array is |
| Colony.World.Environment | Lab7.py:190-214 | get_environment returns the eight neighbours with their grid codes and smells, entry by entry |
| Colony.World.LivePlaced | Lab7.py:42 | a live ant stands on the grid, filed under its position, its cell showing its breed, its power within its cap |
| Colony.World.Resident | Lab7.py:417 | the ant filed under a cell is a live member standing there within its cap |
| Colony.World.Vacant | Lab7.py:414-415 | a cell showing no breed has no ant filed under it |
| Colony.World.OthersKeepPowers | Lab7.py:435 | ants whose power and death flag did not change keep their power bounds |
| Colony.World.PowersRestored | Lab7.py:435-437 | once the changed ant is dead or back within its cap, every live ant is within its cap |
| Colony.World.ListsKept | Lab7.py:134 | unchanged lists keep every live ant listed while no ant revives |
| Colony.World.DropDead | Lab7.py:231-233 | deleting a dead ant keeps the list distinct, of its breed, and holding every live ant it held |
| Colony.World.EraseKeepsDirectory | Lab7.py:128-134 | emptying the cell and dropping the entry of a dying ant keeps grid and directory in agreement |
| Colony.World.MoveKeepsDirectory | Lab7.py:101-125 | moving one ant's entry and grid code to its new cell keeps grid and directory in agreement |
| Colony.World.MoveKeepsValid | Lab7.py:101-125 | a move that keeps the mover within its cap keeps the whole invariant |
| Colony.World.SpawnKeepsDirectory | Lab7.py:145-157 | filing a new ant on a free centre keeps grid and directory in agreement |
| Colony.World.SpawnKeepsLists | Lab7.py:149-156 | appending a new ant to its list keeps the lists distinct and complete, and the powers bounded |
| Colony.World.ResourcesKeepDirectory | Lab7.py:170-173 | writing resources only on cells without an ant keeps grid and directory in agreement |
| Colony.World.SmellsKeepValid | Lab7.py:184-187 | changing only the smells, within bounds, keeps the whole invariant |
| Colony.World.constructor | Lab7.py:30-48 | an empty, valid world: all cells empty and unscented, no ants, iteration 0, centres at (size//3, size//2) and (2*size//3+1, size//2) |
| Colony.World.Relocate | Lab7.py:101-125 | move_ant: the old cell is emptied, the target wrapped once, a resource there eaten, the ant filed and shown at the target, nothing else changed |
| Colony.World.MoveAnt | Lab7.py:101-125 | move_ant onto a cell no other ant holds keeps the world valid, with the effect of Relocate |
| Colony.World.EraseAnt | Lab7.py:128-134 | erase_ant: the ant is marked dead, its entry removed and its cell emptied, the world still valid |
| Colony.World.Spawn | Lab7.py:147-150 | a new ant is filed at a free centre, shown there, and appended to its own list only |
| Colony.World.SpawnIfFree | Lab7.py:145-150 | an ant is born at the centre exactly when it is free and the coin comes up; the grid changes at most at that centre |
| Colony.World.SpawnBlue | Lab7.py:151-157 | one blue centre of the loop: it receives an ant when free and its coin comes up; the red list is untouched; the grid changes at most at that centre |
| Colony.World.AddBlueAnts | Lab7.py:151-157 | the blue list grows by one newborn per free centre whose coin came up, in order; no existing entry changes; the grid shows blue exactly at those centres and is otherwise unchanged |
| Colony.World.AddAnts | Lab7.py:137-157 | add_ants: the red list grows by one ant exactly when the centre was free and the coin came up, the blue list as AddBlueAnts, newborns wander with their starting power, the grid changes only at the centres that received an ant, and the world stays valid |
| Colony.World.Produced | Lab7.py:170-173 | the cells add_resources writes are sources of the pass with no ant on them |
| Colony.World.AddResources | Lab7.py:160-173 | the sources move only on iterations divisible by 100; a resource is written exactly on the sources with no ant whose coin came up |
| Colony.World.AddSmell | Lab7.py:176-187 | only the ant's cell changes, to the larger of its smell and the trail strength; the world stays valid |
| Colony.World.DecayAll | Lab7.py:251-252 | every cell loses the rate, clamped at 0, and stays in bounds |
| Colony.World.DecaySmells | Lab7.py:249-252 | the field decays exactly when its sum is positive; the sum never grows and strictly falls when positive |
| Colony.World.Delete | Lab7.py:231-233 | the dead ant at j is removed from its list only, the world still valid |
| Colony.World.Play | Lab7.py:234-235 | a live ant draws an index among its choices and acts on it as Ant.Acted says; the world stays valid, the lists and the ant set unchanged |
| Colony.World.Turn | Lab7.py:231-235 | the ant at i-died is deleted iff it was dead; otherwise it draws an index among its choices and acts on it as Ant.Acted says; no other ant of the breed dies |
| Colony.World.Advance | Lab7.py:230-235 | one turn keeps the walk: survivors so far plus ants to come make the list, and the ants to come keep their death flags |
| Colony.World.IterateAndAction | Lab7.py:228-236 | the list afterwards is the survivors of the original list, in order; the result is how many were removed; the other list is unchanged |
| Colony.World.Replenish | Lab7.py:225-226 | each list becomes the old list followed by the ants born, each newborn standing at its centre (red only when the red centre was free and its coin came up, blue at the centres BornAt gives), the sources move as add_resources says, the grid shows a resource, blue or red exactly where one was produced or born and is otherwise unchanged, the world stays valid |
| Colony.World.Pass | Lab7.py:238 | the breed's list becomes the survivors of its old list; the breed's kill counter records how many ants were deleted; the other list and counter are left alone |
| Colony.World.Act | Lab7.py:238-244 | the red list becomes the survivors of its old list; each list loses exactly the number recorded in its kill counter |
| Colony.World.Finish | Lab7.py:249-253 | the smells decay when their sum is positive and the iteration advances by one |
| Colony.World.OneStep | Lab7.py:217-253 | one_step keeps the world valid; each list's new length plus its kill count is its old length plus its births; the iteration advances |
| Colony.Ant.constructor | Lab7.py:311-322 | a new ant is alive, wandering, with no steps counted, and power 90, or 180 for a different red ant |
| Colony.Ant.Choices | Lab7.py:337-392 | every index the ant may pick is one of the eight neighbours |
| Colony.Ant.Aim | Lab7.py:395-396 | the chosen neighbour is on the grid, is not the ant's own cell, and comes with its grid code |
| Colony.Ant.Cap | Lab7.py:446-447 | the ant's cap is PowerCap of its `different` flag |
| Colony.Ant.ChoicesNonEmpty | Lab7.py:342-392 | a live ant on its grid always has an index to pick |
| Colony.Ant.HeadHome | Lab7.py:358-366 | a returning ant marks its cell with its trail, then wanders again next to its centre or counts one more step |
| Colony.Ant.ChoosePosition | Lab7.py:325-396 | the neighbour at the index and its code, as before the call; the state moves as NextState; only a returning ant's own cell gets scent |
| Colony.Ant.Fight | Lab7.py:417-424 | the enemy loses 20, the attacker 5, each dies at power 0 or below, and the attacker takes the cell only if it lives and the enemy died; no grid cell but the two ends changes, and an end no ant holds any more shows Empty |
| Colony.Ant.Kiss | Lab7.py:425-428 | both ants take the average of their powers, the world stays valid |
| Colony.Ant.Acted | Lab7.py:325-428 | what one call of action does from the state before it, for the neighbour at an index: the mover's place, power, death and state per branch; the target ant's power and death; and that nothing else changes (grid off the two ends, smells off the trail cell, meal counts off a meal, other ants' state); an end no ant holds any more shows Empty |
| Colony.Ant.Action | Lab7.py:399-428 | action, as Acted states it: move onto a cell without an ant (eating a resource found there), fight an enemy, or kiss a comrade; the state moves as choose_position says; only the grid cells at both ends, the trail cell's smell and the breed's meal count (on a meal) change, and an end left without an ant shows Empty; no other ant changes state, and none but the one at the target is otherwise touched |
| Colony.Ant.Strike | Lab7.py:413-428 | the three branches of action on a neighbour other than the ant's own cell, with their effects on the mover and the ant at the target; only the grid cells at both ends and the breed's meal count (on a meal) change, and an end left without an ant shows Empty |
| Colony.Ant.DecreasePower | Lab7.py:431-437 | the power falls by the amount; at 0 or below the ant is erased from the grid and the directory |
| Colony.Ant.Eat | Lab7.py:439-453 | power is raised by 40 up to the cap, the ant starts returning with no steps counted, and its breed's eat count grows by one |

## Left out

- Drawing with pylab (Lab7.py:53-98, 240-247). It is output only.
- `simulate` (Lab7.py:256-292). It is the driver and a pandas report.
  - This includes the per-step reset of the eat counters (Lab7.py:272).
  - The source sets `red_eat` and `blue_eat` only there. The model's constructor starts them at 0.
- The module-level script (Lab7.py:457-466): seeding, the run and CSV output.
- numpy's random generator. The model treats each draw as follows:
  - the spawn and resource coins are boolean parameters, with the probabilities left out;
  - the new source cells are a parameter, each required to be a legal source cell;
  - the index picked in `choose_position` is any candidate.
- The decay rate `20/sqrt(size)` (Lab7.py:48). It is a given positive real, since square roots are not modelled.
- Floating-point rounding. Power and scent are exact reals.
- `marker_size`, `update_rate` and `draw_mode`. They are display only.
- The default arguments of `add_ants`, `add_resources`, `add_smell`, `decrease_power` and `eat`. They are fixed at the values `one_step` uses.
- The global `world` read at Lab7.py:336. It is taken to be the ant's own world.
- Colony.World.constructor: requires a side of at least 4, or 7 in an asymmetric world. Smaller grids put a blue centre off the grid, where `add_ants` would fail.
- Colony.World.Relocate: requires the target to be within one grid size of the grid. Every caller passes a neighbour already on the grid.
- Colony.World.IterateAndAction: does not state, as a trace, that `action` is called once for each live ant. It states the resulting list, its order and the count removed.
- Colony.World.Act: states the red survivors, but for blue only the list length against the kill counter. The blue pass judges its ants against the deaths after the red pass, which the contract does not name. Colony.World.Pass states the survivors of each pass.
- Colony.World.OneStep: states validity, the iteration, the sources and the list lengths against births and kill counters, not the state of each ant.
- Neighbourhood.Distances: uses the corrected three-way axis distance (see "## Findings"), not the two-way one the code computes. The same holds for everything that reaches it (next lines).
  On a 40-cell grid with centre (13, 20), an ant at (35, 20) whose neighbours are all empty and unscented gets candidates {0, 1, 2} (column 34) in the code and {5, 6, 7} (column 36) in the model.
- Neighbourhood.Chebyshev: the corrected distance, as for Distances.
- Neighbourhood.ReturnChoices: ranks neighbours by the corrected distance, as for Distances.
- Neighbourhood.ReturnChoice: ranks neighbours by the corrected distance, as for Distances.
- Neighbourhood.Candidates: for a returning ant, follows ReturnChoices and the corrected distance.
- Colony.Ant.Choices: follows Candidates and the corrected distance.
- Colony.Ant.Action: the index it is given comes from the corrected choices; its effect for a given index is as the code's.
- Colony.World.Play: draws from the corrected choices.
- Colony.World.Turn: draws from the corrected choices.
- Colony.World.OneStep: runs on the corrected choices.

## Findings

| source | as written | input that shows it | evidently intended | confidence | as-written member | corrected member |
|---|---|---|---|---|---|---|
| Lab7.py:374-383 | `np.minimum(a, b, c)` passes the third array as numpy's `out` argument, so each axis distance is only min(\|a-c\|, \|a+size-c\|) | size 40, red centre column 13: a returning ant compares columns 34 and 36; as written 34 scores 21 and 36 scores 23, though 36 is 17 away round the torus and 34 is 19 | the minimum of all three gaps, the shorter way round the torus | not executed | Neighbourhood.AsWrittenPrefersTheLongWay | Neighbourhood.AxisDistanceIsToroidal |
