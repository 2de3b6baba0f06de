# Wolfsim in Dafny

Wolfsim simulates a wolf pack on a toroidal grid built with the mesa agent
framework. It also provides the bookkeeping a tracking study runs around the
pack. This project models that core and proves properties of it.

- **The wolf agent** (`Wolves`). Each tick a wolf takes a mortality draw. A
  surviving wolf older than eight attacks a random occupant of its cell, then
  ages one year and moves to a cell of its Moore neighbourhood, centre
  included. The two versions of the agent differ in one point: whether death
  clears the wolf's position. A flag selects the version.
- **The grid** (`Space`). mesa's `MultiGrid` with the torus flag is a map
  from cell to the list of agents in it. The wrap-around neighbourhood is
  proved equal to a reference definition: an in-bounds cell at most one step
  away on each axis.
- **The model** (`Simulation`). It creates N wolves with ids `0..N-1`, ages
  in `1..4` and in-bounds positions. A tick records the pre-step state, then
  steps every wolf once in a shuffled order.
- **Pack health** (`Simulation`). The figure the model's data collector
  records is modelled as written. The masked sum it was meant to compute is
  modelled beside it; see Findings.
- **Land-type resolution** (`LandUse`). Every neighbour cell is looked up
  in the land-use table and the types found are grouped per neighbour. A
  neighbour recorded under several types is resolved by the source's loop,
  which removes items from a list while iterating over it. The model
  reproduces the index shifting exactly. Two consequences are proved:
  - vegetation entries that follow a removed one are skipped, so
    `[a, b, c, d]` resolves to `[b, d]`;
  - a list that begins with an overriding layer resolves to the last
    overriding layer in the list, not necessarily the first.
- **Weighted neighbour choice** (`NeighborChoice`). Fixed weights per land
  type, zero padding to eight, and cumulative intervals in the direction
  order 1, 6, 3, 4, 0, 2, 5, 7. Every exit is modelled: nothing,
  ZeroDivisionError, IndexError, UnboundLocalError, or the fallback position.
  For at most eight non-negative weights the intervals exactly fill `0..1`,
  so the draw selects exactly one neighbour, one of positive weight.
- **Metrics of the tracking study** (`Metrics`):
  - the nearest candidate (first index on ties);
  - the share of wolves alive and detected;
  - the true and the estimated centroid, with the fallback to the last
    tracked position;
  - the tracking error, proved zero when every living wolf is detected;
  - the collar count.
- **Feeding-site rules** (`Targeting`). A feeding counter resets on a far
  tick, and a new site is drawn at the fifth consecutive close tick. In the
  pathing variant, the waypoint queue is popped from the head, and a planned
  route to a new site starts from the pack's truncated centroid.
- **Raster readers and the no-data recoding** (`Raster`). The `readCSV` and
  `readASCII` line handling, and the recoding of the tree raster into a
  `0`/`2` mask, are modelled over the list of a file's lines.

Random draws (`randint`, `random.choice`, `randrange`, `uniform`) are
parameters whose ranges are preconditions. numpy's `randint(a, b)` excludes
`b`. Python exceptions are `Err` values of a `Result`. Weights and averages
are exact rationals (`real`).

## Model

| member | source | states |
|---|---|---|
| PyCommon.RemoveFirst | src/WolfsimAgents.py:70 | `list.remove` drops exactly the first occurrence: one element fewer, and the result is the list split around that occurrence |
| PyCommon.RemoveFirstKeepsOthers | src/WolfsimAgents.py:70 | removing one value leaves every other value's membership unchanged |
| PyCommon.Split | src/utils.py:161 | `str.split(sep)` gives at least one piece and no piece holds the separator |
| PyCommon.JoinSplit | src/utils.py:161 | joining the pieces of a split gives back the string |
| PyCommon.SplitJoin | src/utils.py:177 | splitting a join of separator-free pieces gives back the pieces |
| PyCommon.RemoveAll | src/utils.py:177 | `replace(c, "")` leaves no `c`, drops exactly the occurrences of `c`, adds no character, and leaves a string without `c` unchanged |
| PyCommon.RemoveAllAppend | src/utils.py:177 | dropping `c` distributes over concatenation, so every other character is kept in order |
| PyCommon.SliceBound | src/utils.py:170-171 | an in-range bound is kept, a negative one counts from the end, and bounds below `-n` or above `n` are clamped to 0 and `n` |
| PyCommon.SliceFrom | src/utils.py:172 | `s[lo:]` with an in-range `lo` is the suffix from `lo` |
| PyCommon.Trunc | src/WolfsimAgents.py:186 | `int(x)` truncates toward zero: the result lies within one of `x`, on zero's side |
| PyCommon.ParseInt | src/utils.py:178 | `int(s)` succeeds only on a string that holds a digit |
| PyCommon.ParseNatToString | src/utils.py:178 | `int(str(n)) == n` |
| Space.TorusAdj | src/WolfsimModel.py:30 | wrapping puts every cell in bounds and leaves in-bounds cells alone |
| Space.MooreNeighborhood | src/WolfsimAgents.py:18-21 | nine cells, each an in-bounds cell within one step per axis around the torus, centre included |
| Space.MooreNeighborhoodComplete | src/WolfsimAgents.py:18-21 | every cell of the reference neighbourhood is among the nine |
| Space.MooreNeighborhoodDistinct | src/WolfsimAgents.py:18-21 | on a grid at least three cells wide and high the nine cells are pairwise distinct |
| Space.RingStepsDiffer | src/WolfsimAgents.py:18-21 | two different steps of at most one reach different positions on a ring of at least three |
| Space.MoveCellsKeepsOthers | src/WolfsimAgents.py:24 | moving one agent changes no other agent's listing in any cell |
| Space.MoveCellsListsNoNewcomer | src/WolfsimAgents.py:24 | after a move every listed agent was listed before or is the mover |
| Space.MultiGrid.constructor | src/WolfsimModel.py:30 | a new grid has the given size and empty cells |
| Space.MultiGrid.Neighborhood | src/WolfsimAgents.py:18-21 | `get_neighborhood(moore=True, include_center=True)`: nine cells, each a Moore neighbour of the centre |
| Space.MultiGrid.PlaceAgent | src/WolfsimModel.py:42 | `place_agent` appends the agent to its cell's list and changes no other cell |
| Space.MultiGrid.MoveAgent | src/WolfsimAgents.py:24 | `move_agent` removes the agent's listing at its old cell and appends it at the new one |
| Wolves.Victim | src/WolfsimAgents.py:27-32 | a victim exists iff the cell holds more than one agent and the kill draw is 1; it is an occupant, possibly the attacker |
| Wolves.StepVictim | src/WolfsimAgents.py:35-42 | a step attacks only for a wolf alive, surviving the mortality draw and older than 8 |
| Wolves.MoveDecision | src/WolfsimAgents.py:48-51 | `move_decision` returns one of the offered cells |
| Wolves.Wolf.constructor | src/WolfsimAgents.py:10-13 | a new wolf is alive with the given id and age and no position |
| Wolves.Wolf.Attack | src/WolfsimAgents.py:27-32 | only the drawn victim loses its life; no age, position or listing changes |
| Wolves.Wolf.Move | src/WolfsimAgents.py:15-24 | no-op without a position; otherwise the wolf goes to the drawn neighbour, a Moore neighbour, and the grid records exactly that move |
| Wolves.Wolf.Step | src/WolfsimAgents.py:35-46 | the full step of either version: death by draw (position cleared or kept), attack, age + 1, move; cell-mates change only by the attack |
| Wolves.Wolf.StepClearingPos | src/WolfsimAgents.py:35-46 | a mortality draw kills and clears the position with no aging or move; a wolf alive afterwards aged by exactly 1 and moved to a Moore neighbour; a dead wolf stays dead; cell-mates lose their life only to the attack, and a dying or dead wolf's step kills none of them; no other wolf's age or position changes |
| Wolves.Wolf.StepKeepingPos | src/wolfsim_mesa.py:41-51 | death keeps the position; a dead wolf's step changes nothing: not itself, not its cell-mates, not the grid; a survivor ages by exactly 1 and moves to a Moore neighbour; cell-mates lose their life only to the attack; no other wolf's age or position changes |
| Simulation.PackHealthAsWritten | src/WolfsimModel.py:18-23 | as written: the first wolf's age over the pack size, IndexError for an empty pack |
| Simulation.PackHealthAsWrittenIgnoresAlive | src/wolfsim_mesa.py:11-15 | as written the figure does not depend on any alive flag |
| Simulation.PackHealthAsWrittenCountsTheDead | src/WolfsimModel.py:22 | a dead wolf aged 5 and a live one aged 2 give 2.5 as written and 1 with the alive mask |
| Simulation.PackHealth | src/WolfsimModel.py:22 | corrected: the living wolves' summed age over the pack size |
| Simulation.AliveAgeSumBounds | src/WolfsimModel.py:22 | the masked sum lies between 0 and pack size times the maximum age |
| Simulation.PackHealthBounded | src/WolfsimModel.py:22 | with ages in `0..maxAge` the corrected figure lies in `0..maxAge` |
| Simulation.AliveAgeSumIgnoresDead | src/WolfsimModel.py:22 | the ages of dead wolves do not change the corrected figure |
| Simulation.RecordsOf | src/WolfsimModel.py:44-46 | the agent reporters record every wolf's alive flag, age and position, in order |
| Simulation.WolfModel.constructor | src/WolfsimModel.py:28-42 | N wolves with ids `0..N-1`, alive, ages in `1..4`, each placed at its drawn in-bounds cell and listed there; the grid lists only pack members |
| Simulation.PlacePack | src/WolfsimModel.py:35-42 | on a grid that starts empty, wolf `i` gets id `i`, is alive with its drawn age, and is listed at its drawn cell; the grid lists nobody else |
| Simulation.PlaceNewWolf | src/WolfsimModel.py:37-42 | a new alive wolf with the given id and age, positioned at `c` and appended to the list of `c`, every other cell as before |
| Simulation.WolfModel.Step | src/WolfsimModel.py:44-52 | the pre-step records and the pack-health figure as written are appended to the history, then the pack invariant is kept; nobody comes back to life, ages grow by 0 or 1, and every wolf alive after the tick aged by exactly 1 and stands in the Moore neighbourhood of its cell before the tick |
| Simulation.WolfModel.StepAll | src/wolfsim_mesa.py:76-79 | stepping each agent once in a permutation order keeps the pack invariant, with no revival, the same aging bounds, and every survivor in the Moore neighbourhood of its starting cell |
| Simulation.WolfModel.StepOne | src/WolfsimAgents.py:35-46 | one agent's step keeps the pack invariant, changes no other agent's age or position and revives nobody; the agent itself, if alive after, aged by 1 and moved to a Moore neighbour |
| Simulation.MoveKeepsListings | src/WolfsimAgents.py:24 | a move of one pack member (or no move) lists only pack members and keeps every other agent's listing |
| LandUse.LastSpecial | src/WolfsimAgents.py:72-83 | an overriding layer of the list, none iff the list has none |
| LandUse.LastSpecialIsLast | src/WolfsimAgents.py:72-83 | the layer found sits at a position after which no overriding layer follows: it is the last one |
| LandUse.ResolveTypes | src/WolfsimAgents.py:63-83 | the remove-while-iterating loop computes the resolution; a list of one type is kept as it is |
| LandUse.ResolveNonEmpty | src/WolfsimAgents.py:64-70 | a neighbour with types never ends with none |
| LandUse.ResolveWithin | src/WolfsimAgents.py:63-83 | resolution keeps only types recorded for the cell |
| LandUse.ResolveKeepsSpecial | src/WolfsimAgents.py:72-83 | a cell with an overriding layer keeps one |
| LandUse.ResolveFirstSpecial | src/WolfsimAgents.py:72-83 | a list starting with an overriding layer resolves to exactly one type, the last overriding layer in it |
| LandUse.RemoveHead | src/WolfsimAgents.py:65-70 | a leading vegetation entry is removed and the iterator moves on to index 1 of the shortened list |
| LandUse.RemoveMiddle | src/WolfsimAgents.py:65-70 | a middle vegetation entry at the iterator is removed and the loop ends |
| LandUse.ResolveSkipsAfterRemoval | src/WolfsimAgents.py:65-70 | four vegetation types resolve to the second and fourth |
| LandUse.ResolveMayKeepVegetationBesideLayer | src/WolfsimAgents.py:63-83 | an overriding layer second in the list is stepped over, and a vegetation type survives beside it |
| LandUse.VegetationOf | src/WolfsimAgents.py:61 | the recorded type is the key of an entry at or before the hit entry with the same cell list (`values().index` finds an equal list, not necessarily the hit entry) |
| LandUse.Hits | src/WolfsimAgents.py:59-62 | one copy of the type per occurrence of the neighbour in a cell list, none iff absent |
| LandUse.TypesUpToMember | src/WolfsimAgents.py:57-62 | a type is found for a neighbour iff some entry lists the neighbour and that type is the entry's |
| LandUse.CellTypesOfUnlisted | src/WolfsimAgents.py:57-62 | a neighbour that no entry lists gets no types |
| LandUse.Lookup | src/WolfsimAgents.py:62 | the dictionary position of a key, or -1 iff absent |
| LandUse.LookupAfterAppend | src/WolfsimAgents.py:62 | `setdefault(...).append` keeps a key's position, or adds it at the end, and extends its list |
| LandUse.AppendTypesTwice | src/WolfsimAgents.py:62 | appending in two goes equals appending once |
| LandUse.AppendTypesOther | src/WolfsimAgents.py:62 | appending under one key leaves every other key and list as it was |
| LandUse.GroupByNeighbor | src/WolfsimAgents.py:55-62 | the three nested loops build the grouped dictionary |
| LandUse.ScanEntry | src/WolfsimAgents.py:58-62 | the scan of one cell list appends the entry's type once per occurrence of the neighbour |
| LandUse.SetDefaultAppend | src/WolfsimAgents.py:62 | `setdefault(n, []).append(t)` appends `t` under `n`, adding the key at the end if new |
| LandUse.GroupedEntries | src/WolfsimAgents.py:57-62 | a neighbour is a key iff it is listed in the table; its list is its types once per occurrence in the neighbour list |
| LandUse.GroupedOrder | src/WolfsimAgents.py:57-62 | keys are neighbours, in order of first occurrence |
| LandUse.GroupedEntry | src/WolfsimAgents.py:57-62 | every dictionary entry is a listed neighbour with a non-empty type list |
| LandUse.UnlistedNeighborNotGrouped | src/WolfsimAgents.py:57-62 | a neighbour found in no list contributes nothing |
| LandUse.SingleTypeNeighbor | src/WolfsimAgents.py:57-85 | a neighbour with exactly one type is grouped with it alone and contributes it unchanged |
| LandUse.ResolvedAllAppend | src/WolfsimAgents.py:84-85 | contributions follow dictionary order |
| LandUse.ResolvedAllLength | src/WolfsimAgents.py:63-85 | every group contributes at least one type |
| LandUse.ResolvedAllWithin | src/WolfsimAgents.py:84-85 | every contributed type comes from some group |
| LandUse.CheckVegetation | src/WolfsimAgents.py:53-86 | `check_vegetation_of_neighbor` is grouping then resolution in dictionary order |
| LandUse.CheckVegetationSound | src/WolfsimAgents.py:53-86 | every returned type is a table key of an entry that lists one of the neighbours |
| LandUse.CheckVegetationLength | src/WolfsimAgents.py:53-86 | at least one type per neighbour the table knows |
| NeighborChoice.TableWeight | src/WolfsimAgents.py:97-127 | every tabled type has a weight in `0..1` (given a cloud draw in `0..1`); only unknown names have none |
| NeighborChoice.Weights | src/WolfsimAgents.py:97-128 | one weight per type from the table; an unknown name repeats the previous weight, and first in the list raises UnboundLocalError |
| NeighborChoice.WeightsBounded | src/WolfsimAgents.py:97-128 | with cloud draws in `0..1` every weight lies in `0..1` |
| NeighborChoice.ChoiceWeights | src/WolfsimAgents.py:97-128 | the weight loop computes the weight list |
| NeighborChoice.Padded | src/WolfsimAgents.py:132-133 | padding gives at least eight entries, the originals first and zeros after |
| NeighborChoice.PadChoices | src/WolfsimAgents.py:132-133 | the `while` loop pads the weight list exactly as `Padded` does |
| NeighborChoice.SelectDirection | src/WolfsimAgents.py:130-192 | every exit of the interval walk: nothing for `[]` or eight zeros, ZeroDivisionError, IndexError, the fallback position, UnboundLocalError, else a neighbour whose interval holds the draw |
| NeighborChoice.WalkIntervals | src/WolfsimAgents.py:149-184 | the eight interval tests in order: IndexError iff a holding interval names a missing neighbour, none iff no interval holds, else the neighbour of a holding interval; the running sum ends at the cumulative total |
| NeighborChoice.Choose | src/WolfsimAgents.py:88-192 | `neighbor_choice` is resolution, weights, then the interval walk; an unknown first type raises UnboundLocalError |
| NeighborChoice.SumNonNegative | src/WolfsimAgents.py:152 | non-negative weights have a non-negative sum |
| NeighborChoice.CumulativeMonotone | src/WolfsimAgents.py:151-180 | with non-negative weights the running share never falls |
| NeighborChoice.IntervalsDisjoint | src/WolfsimAgents.py:153-184 | no draw lies in two direction intervals |
| NeighborChoice.SumOfEight | src/WolfsimAgents.py:152 | the sum of eight weights is their plain sum |
| NeighborChoice.CumulativeIsShare | src/WolfsimAgents.py:151-180 | the running share is the running weight over the total |
| NeighborChoice.CumulativeIsOne | src/WolfsimAgents.py:180-191 | for at most eight weights the final share is exactly 1, so the fallback is never taken |
| NeighborChoice.ChosenHasWeight | src/WolfsimAgents.py:151-184 | a direction whose interval holds the draw has positive weight |
| NeighborChoice.SomeIntervalHolds | src/WolfsimAgents.py:149-184 | a draw inside `0..1` off every interval end falls in some interval |
| NeighborChoice.ChoiceIsWeighted | src/WolfsimAgents.py:130-192 | for 1..8 non-negative weights, not all zero, and eight neighbours, the result is exactly one neighbour, of positive weight |
| Metrics.DistSq | src/utils.py:22 | the squared distance is non-negative and zero iff the cells coincide |
| Metrics.ArgMinFrom | src/utils.py:22 | `np.argmin`: an index of minimal distance, before which every distance is larger |
| Metrics.FindToward | src/utils.py:21-24 | the first candidate at minimal distance; ValueError iff there are no candidates |
| Metrics.FindTowardExact | src/utils.py:21-24 | a candidate on the target, first of its kind, is returned |
| Metrics.CountAliveDetected | src/utils.py:30-33 | the count never exceeds the pack size |
| Metrics.PackHealth | src/utils.py:27-35 | the count of wolves alive and detected over `num_agents`; ZeroDivisionError iff `num_agents` is 0; a share in `0..1` when `num_agents` covers the pack |
| Metrics.Positions | src/utils.py:39 | one cell per kept wolf (as many as `Count` says), each the cell of a kept wolf |
| Metrics.PositionsInOrder | src/utils.py:39 | the kept wolf `i` is listed right after the kept wolves before it: the comprehension keeps pack order |
| Metrics.PositionsSums | src/utils.py:39-40 | the listed cells sum to the kept wolves' coordinates |
| Metrics.KeptCentroid | src/utils.py:40 | `np.average` of the kept cells: none iff nothing is kept, else the kept wolves' coordinate sums over their number |
| Metrics.Mean | src/utils.py:40 | `np.average(axis=0)`: none (NaN) iff empty; otherwise the mean times the count is the coordinate sum |
| Metrics.PackPosition | src/utils.py:38-41 | none iff no wolf is alive; otherwise the living wolves' coordinate sums over their number |
| Metrics.EstPackPosition | src/utils.py:44-50 | the tracked position when no wolf is alive and detected; otherwise the coordinate sums of the wolves alive and detected over their number |
| Metrics.NoneKept | src/utils.py:45-46 | no wolf counted iff no wolf passes the filter |
| Metrics.PositionsAgree | src/utils.py:39 | filters that agree on the pack keep the same cells |
| Metrics.PointDistSq | src/utils.py:56 | the squared distance between two points is non-negative and zero for equal points |
| Metrics.TrackErrorSq | src/utils.py:53-57 | undefined iff no wolf is alive; otherwise the squared distance between the true and the estimated centroid, non-negative |
| Metrics.TrackErrorZeroWhenAllSeen | src/utils.py:53-57 | one wolf alive and every living wolf detected give error 0 |
| Metrics.NumberOfCollars | src/utils.py:60-63 | exactly the number of living wolves with a collar of type 1 or 2, never more than the living |
| Metrics.CollaredAmongAlive | src/utils.py:60-63 | every counted collar belongs to a living wolf, so the count is at most the living |
| Targeting.NextFeeding | src/utils.py:71-77 | a close tick adds one to the counter, a far tick resets it |
| Targeting.TrailingClose | src/utils.py:71-77 | the run of close ticks at the end |
| Targeting.FeedingCountsCloseTicks | src/utils.py:71-77 | over any run of ticks the counter is the number of trailing close ticks (plus its start when none was far) |
| Targeting.NewSiteAfterFiveCloseTicks | src/utils.py:72-74 | from a fresh counter, a new site is drawn iff the last five or more ticks were close |
| Targeting.DrawSite | src/utils.py:74 | `randint(0, len(sites)-1)`: ValueError iff fewer than two sites; the index never names the last site |
| Targeting.TruncatedCentroid | src/utils.py:95-96 | on non-negative coordinates the cell at or just below the exact centroid on each axis |
| Targeting.TruncBracket | src/utils.py:95 | the truncated mean brackets the sum between two multiples of the count |
| Targeting.PackTarget.UpdatedTarget | src/utils.py:66-80 | IndexError for a bad site index, then ValueError for an empty pack; otherwise the counter rule, a drawn site at five or more, the kept site otherwise; the site is not stored |
| Targeting.PackTarget.UpdatedTargetPathing | src/utils.py:83-123 | IndexError on an empty path, then ValueError for an empty pack; far: reset, path kept; close mid-path: exactly the head popped; close at the last waypoint: count, and at five a drawn site and a route from the truncated centroid ending at it |
| Raster.ReadCsv | src/utils.py:156-162 | one row per line, the line's comma split, which joins back to the line |
| Raster.WidthField | src/utils.py:170-183 | new layout: the three characters before the line's last; old layout: the last four characters (fewer on a shorter line) |
| Raster.HeightField | src/utils.py:171-184 | new layout: the four characters before the line's last; old layout: the last five characters (fewer on a shorter line) |
| Raster.RowCells | src/utils.py:176-177 | a body line splits into at least one token; new-layout tokens hold no newline or space |
| Raster.ReadAscii | src/utils.py:165-193 | ValueError for an unknown layout, IndexError under two lines, ValueError for a malformed field; otherwise the parsed header and the body rows, last line first |
| Raster.NewRowJoinsBack | src/utils.py:177 | a new-layout row joins back to its line without the newline |
| Raster.NewFieldIsNumber | src/utils.py:170-171 | the slice before the newline is the right-aligned field |
| Raster.ParsePadded | src/utils.py:178 | `int()` reads a space-padded number back |
| Raster.NewWidthReadsBack | src/utils.py:170 | a width of up to three digits at the end of line 0 is read back |
| Raster.NewHeightReadsBack | src/utils.py:171 | a height of up to four digits at the end of line 1 is read back |
| Raster.Recode | data/fix_data.py:18-27 | `2` iff the token is the no-data value, else `0` |
| Raster.RecodedTokens | data/fix_data.py:17-27 | token `k` gives pieces `2k` (recoded) and `2k+1` (a space) |
| Raster.FixedLine | data/fix_data.py:15-28 | an n-token line gives 2n+1 pieces ending with a newline |
| Raster.FixLine | data/fix_data.py:15-28 | the inner loop builds exactly those pieces |
| Raster.FixData | data/fix_data.py:6-29 | IndexError iff fewer than two lines; the seven header lines dropped; one recoded line per body line, last line first |
| Raster.RecodedTokensText | data/fix_data.py:17-27 | the recoded tokens hold only `0`, `2` and spaces |
| Raster.FixedLineIsOneMaskLine | data/fix_data.py:17-29 | each output line holds only `0`, `2` and spaces, and its one newline ends it |
| Raster.LastColumnKeepsNewline | data/fix_data.py:15-18 | the last token keeps the line's newline, so a no-data value in the last column becomes `0` |

## Left out

- File I/O, plotting, printing, the `debug` output, and the `plot` branch of `compute_updated_target_pathing`: only the transformations over lines and values are modelled.
- The mesa services: `RandomActivation` is an activation order passed in as a permutation, and `DataCollector` is a list of recorded rows.
- Random distributions and seeding: every draw is a parameter, constrained to the range the call can return.
- Floating point: weights, shares and averages are exact rationals, so rounding in the cumulative sums is not modelled. The 0.999 snap is modelled as written.
- The `sqrt`-based mean distances behind the 10 and 7.5 thresholds: the distance is an input. `find_toward` compares squared distances, which order candidates as the distances do.
- `dijkstra_path` is a planner function passed in; `NoPathError` stands for every networkx failure (no route, unknown node).
- `weibull_distribution`: floating-point exponentials only.
- Targeting.PackTarget.UpdatedTargetPathing: assumes a numpy that still provides `np.int` (recent versions raise AttributeError there).
- Metrics.TrackErrorSq: states the squared distance; the square root is not modelled.
- The utils metrics read `detected`, `collar_type` and `tracked_position`, which no file shown maintains. They are plain fields of `Metrics.TrackedWolf` and parameters.
- Every wolf the utils metrics read has a cell. A dead wolf whose position was cleared would make numpy fail in those functions.
- The `Clouds` weight is a draw passed in per list position.
- `neighbor_choice` reads `current_position` and `saved_position`, which nothing in the files shown assigns. They are inputs; the AttributeError an unassigned attribute would raise is not modelled.
- `neighbor_choice` is unreachable from `move_decision`, whose call is commented out. It is modelled on its own.
- PyCommon.ParseInt: handles ASCII whitespace and ASCII digits only; Python's `int()` also strips non-ASCII whitespace (such as U+00A0), reads any Unicode decimal digit and accepts underscores between digits, all of which the model rejects with ValueError. The rasters it reads are ASCII files.
- Space.MultiGrid.Neighborhood: always lists nine cells. mesa lists each distinct cell once, so on a grid narrower or shorter than three cells it lists fewer, and the move draw there is not weighted as in mesa (a repeated cell counts more than once in the model). `Space.MooreNeighborhoodDistinct` proves the nine cells distinct when both sides are at least three, where the two agree. The order is row by row from the row above, as mesa iterates the offsets.

## Findings

| source | as written | input that shows it | evidently intended | confidence | as-written member | corrected member |
|---|---|---|---|---|---|---|
| src/WolfsimModel.py:22 (also src/wolfsim_mesa.py:14) | `agent_ages[agent_health==True]` compares a list with `True`, which gives `False`, so it indexes the first age only | a dead wolf aged 5 and a live one aged 2: the figure is 2.5 | the summed age of the living wolves over the pack size, which is 1 for that pack | not executed | Simulation.PackHealthAsWrittenCountsTheDead | Simulation.PackHealth |

Two behaviours of the land-type resolution are proved rather than corrected, because no single intended rule is evident from the source:
- `LandUse.ResolveSkipsAfterRemoval`: removing items while iterating skips entries, so several vegetation types can survive.
- `LandUse.ResolveMayKeepVegetationBesideLayer`: an overriding layer can end up beside vegetation.

A dead wolf of the later agent version can still lose its position on a later step. A wolf killed in an attack keeps its cell, and its next mortality draw clears its position. `Wolves.Wolf.StepClearingPos` states this.
