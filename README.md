# Greedy solvers for two Hash Code problems, modelled in Dafny

The repository holds two greedy solvers.

**The ride dispatcher** (`src/hashcode2018/HashCode2018.java`) assigns
ride requests on a grid to a fleet of cars. It runs a time-stepped
simulation:

- At each step it first removes from the pool every ride whose latest finish
  has passed.
- Then each free car, in car order, takes the feasible ride with the highest
  score, where the score is the ride length plus the on-time bonus, divided
  by the journey time.
- The simulation ends early when a car finds the pool empty.

The model is in four modules:

- `RideModel` holds rides, cars, distances, the journey time, the feasibility
  and bonus tests, and the score. The score is a Java `double` modelled as an
  exact fraction, an infinity or NaN, together with Java's `>` on such values.
- `RideSimulation` gives the whole simulation as pure functions: the expiry
  pass, the ride choice, one car's turn, one step and the run. It proves
  their properties. No ride is handed out twice. The expiry pass never drops
  a live ride. The chosen ride is the first feasible ride with the strictly
  greatest score. Free times never go back.
- `RideLoading` covers the state after input: rides numbered in input order
  and stably sorted by non-increasing earliest start.
- `RideDispatcher` holds the imperative class. Its fields are the pool (a
  sequence reassigned in place) and the car array, whose slots are updated in
  place. Each method is proved equal to its function in `RideSimulation`.
  `Solve` loads the input and runs the assignment with the score for the
  loaded bonus, as the program's entry point does.

**The cache-content chooser** (`src/hashcode2017/Main.java`) decides which
videos each cache server stores.

- The latency table and the request table are built from the input lines.
- Caches are then filled one after the other. For each cache, every video's
  value is computed from the best latencies known so far. A 0/1 knapsack over
  the cache capacity is solved with a one-dimensional table. A video list is
  recovered from the table by a slot-by-slot back-substitution. The
  best-known latencies are then lowered for the chosen videos.

The model is in three modules:

- `CacheTables` holds the input tables and the array methods that build them.
- `Knapsack` states the knapsack table and the back-substitution as pure
  functions on sequences, and proves that the recovered list is sound: no
  video twice, only existing videos, and within the capacity.
- `CacheAssignment` holds the class `CacheNetwork`. Its methods work in place
  on arrays, as the source does: the best-latency table, the knapsack table,
  the value array and the back-substitution slots. Each method is proved
  against the functions of `Knapsack` and against a ghost function `Quick`
  that gives the best-known latency after a given sequence of lists.

Several behaviours are kept exactly as the source writes them, and lemmas
state their consequences:

- **The bonus test** grants the bonus when the distance to the start is at
  most `car.t - s`. This is not an "arrives by the earliest start" test
  (`RideModel.BonusIsNotOnTimeTest`).
- **The expiry loop** advances its index after a removal, so the ride that
  slides into the removed ride's place is not examined in that pass
  (`RideSimulation.ExpireSkipsSuccessor`).
- **The knapsack seeding** compares video 0's *value* with the capacity. When
  that value is at most `X`, it writes the capacity `X` into the entry at
  video 0's size (`Knapsack.Seeded`).
- **Out-of-range indexing.** Where the chooser would index outside an array,
  the model reports it. This happens with no videos, or with a seeded
  video 0 larger than the capacity. The model returns `false` from
  `SolveKnapsack` and `OutOfBounds` from `AssignVideosToCaches`, in place of
  an exception.

Java's `rides.remove(rides.get(r))` removes by object identity. Every ride is
a distinct object, so it removes the element at index `r`; the model writes
this as `RemoveAt`.

## Model

| member | source | states |
|---|---|---|
| IntMath.Max | src/hashcode2018/HashCode2018.java:157 | the larger of two integers: at least both, and equal to one of them (Math.max, also used at src/hashcode2017/Main.java:178) |
| RideModel.ManhattanDist | src/hashcode2018/HashCode2018.java:173-176 | the sum of the absolute coordinate differences; it is 0 exactly when the two points coincide |
| RideModel.ManhattanSymmetric | src/hashcode2018/HashCode2018.java:173-176 | the distance is symmetric |
| RideModel.ManhattanTriangle | src/hashcode2018/HashCode2018.java:173-176 | the distance obeys the triangle inequality |
| RideModel.Ride.Dist | src/hashcode2018/HashCode2018.java:314 | a ride's length is the distance from its start to its finish; it is 0 exactly when the two intersections coincide |
| RideModel.DistToStart | src/hashcode2018/HashCode2018.java:167-170 | the distance from the car to the ride's start; it is 0 exactly when the car stands at the start |
| RideModel.JourneyTime | src/hashcode2018/HashCode2018.java:155-158 | the journey time covers the drive to the start plus the ride, and also covers waiting until the earliest start and then the ride; it equals one of the two |
| RideModel.Infeasible | src/hashcode2018/HashCode2018.java:161-164 | a ride is feasible exactly when the car can reach the start and drive the ride by its latest finish, and the ride started at its earliest start also ends by then |
| RideModel.Bonus | src/hashcode2018/HashCode2018.java:149-152 | the modifier is the bonus or 0; with a non-zero bonus it is the bonus exactly when `car.t - s` is at least the distance to the start |
| RideModel.BonusIsNotOnTimeTest | src/hashcode2018/HashCode2018.java:149-152 | for every car, ride and bonus: a car already at the start before the earliest start gets no bonus; of the cars that can reach the start by the earliest start, only one standing there at exactly that time gets it; and a car late by at least the distance to the start gets it |
| RideModel.SourceScore | src/hashcode2018/HashCode2018.java:34-36 | the score is (ride length + bonus) / journey time; it is finite exactly when the journey time is non-zero, and NaN exactly for 0/0 |
| RideModel.GtIrreflexive | src/hashcode2018/HashCode2018.java:121 | no score is greater than itself |
| RideModel.GtAboveNotGt | src/hashcode2018/HashCode2018.java:121 | if p > q and r is not above q (and r is not NaN), then p > r |
| RideModel.GtTransitive | src/hashcode2018/HashCode2018.java:121 | the score comparison is transitive |
| RideModel.GtAsymmetric | src/hashcode2018/HashCode2018.java:121 | of two scores, at most one is greater than the other |
| RideSimulation.RemoveAt | src/hashcode2018/HashCode2018.java:141 | removing index i keeps every element before i and shifts every later element down by one |
| RideSimulation.Expire | src/hashcode2018/HashCode2018.java:80-86 | defined by its body (the pass as a recursion over the pool); properties in ExpireFromStart, ExpireKeepsHalf, ExpireOnlyRemoves, ExpireKeepsLive and ExpireSkipsSuccessor |
| RideSimulation.ExpireFrom | src/hashcode2018/HashCode2018.java:80-86 | defined by its body (the index loop from index r); ExpireFromSplit and ExpireFromStart prove it equal to the pass |
| RideSimulation.ExpireKeepsHalf | src/hashcode2018/HashCode2018.java:80-86 | since a removal skips the next ride, at least half of the pool (rounded down) survives one pass, and the pass never grows the pool |
| RideSimulation.ExpireFromSplit | src/hashcode2018/HashCode2018.java:80-86 | once the index loop has passed a prefix, its result is that prefix followed by the expiry of the rest |
| RideSimulation.ExpireFromDrops | src/hashcode2018/HashCode2018.java:82-84 | the loop removes an expired ride at the index and then moves past its successor |
| RideSimulation.ExpireFromKeeps | src/hashcode2018/HashCode2018.java:80-82 | the loop moves past a live ride at the index |
| RideSimulation.ExpireFromStart | src/hashcode2018/HashCode2018.java:80-86 | the index loop from 0 computes the expiry pass |
| RideSimulation.ExpireOnlyRemoves | src/hashcode2018/HashCode2018.java:80-86 | the pass only removes rides: its result is a sub-multiset of the pool |
| RideSimulation.ExpireKeepsLive | src/hashcode2018/HashCode2018.java:80-86 | every live ride (f > t) survives the pass, as a multiset inclusion |
| RideSimulation.LiveHasLiveRides | src/hashcode2018/HashCode2018.java:82 | a ride of the pool with f > t is among the live rides |
| RideSimulation.ExpireKeepsLiveRide | src/hashcode2018/HashCode2018.java:80-86 | a ride with f > t is still in the pool after the pass, so every removed ride had f <= t |
| RideSimulation.ExpireSkipsSuccessor | src/hashcode2018/HashCode2018.java:80-86 | an expired ride's successor survives the pass whatever its latest finish, and the pass resumes after it |
| RideSimulation.PickUpTo | src/hashcode2018/HashCode2018.java:106-126 | defined by its body (the scan's two variables after n rides); PickUpToIsFirstBest states what they mean |
| RideSimulation.Pick | src/hashcode2018/HashCode2018.java:106-126 | defined by its body (the scan over the whole pool); PickIsFirstBest states that it is -2 or the first feasible ride with the strictly greatest score |
| RideSimulation.PickUpToIsFirstBest | src/hashcode2018/HashCode2018.java:106-126 | after scanning n rides, the index is -2 with no feasible ride above -2; or it is a feasible ride above -2 that no feasible ride beats, and every earlier feasible ride scores strictly less or NaN |
| RideSimulation.PickIsFirstBest | src/hashcode2018/HashCode2018.java:106-126 | the same guarantee for the whole pool |
| RideSimulation.ServeCar | src/hashcode2018/HashCode2018.java:94-141 | one car's turn keeps the state shaped: one list per car |
| RideSimulation.ServeFrom | src/hashcode2018/HashCode2018.java:88-142 | the cars' turns keep the state shaped, and they report an empty pool only when the pool is empty |
| RideSimulation.RunFrom | src/hashcode2018/HashCode2018.java:78-143 | the run keeps one list per car |
| RideSimulation.EmptyPlan | src/hashcode2018/HashCode2018.java:66-71 | one empty list per car |
| RideSimulation.IdsRemoveAt | src/hashcode2018/HashCode2018.java:141 | removing a ride takes exactly its id out of the pool's ids |
| RideSimulation.ExpireIdsShrink | src/hashcode2018/HashCode2018.java:80-86 | the expiry pass adds no ride id |
| RideSimulation.ServeCarShape | src/hashcode2018/HashCode2018.java:94-141 | a turn changes only its own car and list, never moves the free time back, leaves a car busy after t untouched, brings an idle car to at least t, and appends at most one id |
| RideSimulation.ServeCarCommits | src/hashcode2018/HashCode2018.java:128-141 | with no pick, the pool and lists are unchanged and the car is brought to t. With a pick, its id is appended, it leaves the pool, and it was feasible; the car then stands at the ride's finish, its free time advanced by the journey time and within the ride's latest finish |
| RideSimulation.ServeCarKeepsIds | src/hashcode2018/HashCode2018.java:133-141 | a turn only moves an id from the pool to a list |
| RideSimulation.ServeFromKeepsIds | src/hashcode2018/HashCode2018.java:88-142 | the cars' turns only move ids from the pool to lists |
| RideSimulation.ServeFromUntouched | src/hashcode2018/HashCode2018.java:88-142 | the turns of cars c.. leave the cars before c alone |
| RideSimulation.ServeFromAdvances | src/hashcode2018/HashCode2018.java:88-142 | within a step, free times never go back and each list gains at most one id |
| RideSimulation.AtMostOneRidePerStep | src/hashcode2018/HashCode2018.java:88-142 | each car gets at most one ride per step, and the lists only grow |
| RideSimulation.RunKeepsIds | src/hashcode2018/HashCode2018.java:78-145 | the whole run never creates or duplicates a ride id |
| RideSimulation.RunOnlyAdvances | src/hashcode2018/HashCode2018.java:78-145 | over the run, free times never go back and lists are only appended to |
| RideSimulation.EmptyPoolStops | src/hashcode2018/HashCode2018.java:90-93 | an empty pool at a step ends the run with the state unchanged |
| RideSimulation.NoRideUsedTwice | src/hashcode2018/HashCode2018.java:64-146 | from a state with distinct ids, no id occurs twice over all the lists, and every id given out was in the starting state |
| RideLoading.Numbered | src/hashcode2018/HashCode2018.java:207-212 | ride i of the input gets id i |
| RideLoading.Insert | src/hashcode2018/HashCode2018.java:215-222 | defined by its body (one insertion step of the stable sort); properties in InsertPermutes and InsertKeepsOrder |
| RideLoading.SortByStart | src/hashcode2018/HashCode2018.java:215-222 | defined by its body; SortPermutes and SortOrders state that it is a stable permutation ordered by non-increasing earliest start |
| RideLoading.InsertPermutes | src/hashcode2018/HashCode2018.java:215-222 | insertion adds exactly the one ride, and its id |
| RideLoading.InsertKeepsOrder | src/hashcode2018/HashCode2018.java:215-222 | inserting a ride with a larger id into an ordered pool keeps it ordered |
| RideLoading.SortPermutes | src/hashcode2018/HashCode2018.java:215-222 | the sort is a permutation, of rides and of ids |
| RideLoading.SortOrders | src/hashcode2018/HashCode2018.java:215-222 | with ids increasing along the input, the result has non-increasing earliest start and keeps ties in input order (a stable sort) |
| RideLoading.Loaded | src/hashcode2018/HashCode2018.java:207-229 | the loaded state has F cars and one list per car |
| RideLoading.LoadedPool | src/hashcode2018/HashCode2018.java:207-222 | the loaded pool holds ids 0..N-1 once each, sorted by non-increasing earliest start with ties in id order |
| RideLoading.LoadedRunUsesEachRideOnce | src/hashcode2018/HashCode2018.java:53-54 | the run on loaded input gives F lists, with no ride given twice and only ids 0..N-1 |
| RideDispatcher.Dispatcher.Load | src/hashcode2018/HashCode2018.java:207-229 | the pool is the stably sorted, numbered rides, and there are F fresh cars at (0, 0) free at 0 |
| RideDispatcher.Dispatcher.ExpireRides | src/hashcode2018/HashCode2018.java:80-86 | the index loop leaves the pool equal to the expiry pass of the old pool |
| RideDispatcher.Dispatcher.ChooseRide | src/hashcode2018/HashCode2018.java:106-126 | the scan returns the pick: -2, or the first feasible ride with the strictly greatest score above -2 |
| RideDispatcher.Dispatcher.TakeTurn | src/hashcode2018/HashCode2018.java:94-141 | the new pool, cars and lists are one car's turn applied to the old state |
| RideDispatcher.Dispatcher.ServeCars | src/hashcode2018/HashCode2018.java:88-142 | the new state and the stop flag are the cars' turns applied to the old state |
| RideDispatcher.Dispatcher.Assign | src/hashcode2018/HashCode2018.java:64-146 | the returned lists, pool and cars are the whole run from one empty list per car |
| RideDispatcher.Solve | src/hashcode2018/HashCode2018.java:50-55 | loading the input and then assigning with the score for bonus B gives the pure run from the loaded state: F lists, no ride given twice, only ids 0..N-1 |
| CacheTables.LinkLatency | src/hashcode2017/Main.java:62-82 | defined by its body (the last connection line naming the row wins); properties in UnlinkedCacheUnreachable and LinkedCacheLatency |
| CacheTables.Demand | src/hashcode2017/Main.java:84-90 | defined by its body (the sum of the matching request lines); properties in DemandConcat, DemandNonNegative and UnrequestedDemand |
| CacheTables.UnlinkedCacheUnreachable | src/hashcode2017/Main.java:62-81 | a cache that no connection line names keeps its starting latency |
| CacheTables.LinkedCacheLatency | src/hashcode2017/Main.java:76-81 | a cache's latency comes from the last connection line that names it |
| CacheTables.DemandConcat | src/hashcode2017/Main.java:86-90 | request counts accumulate: two batches of lines give the sum of their demands |
| CacheTables.DemandNonNegative | src/hashcode2017/Main.java:86-90 | non-negative counts give non-negative demand |
| CacheTables.UnrequestedDemand | src/hashcode2017/Main.java:84-90 | a pair no request line mentions has demand 0 |
| CacheTables.Rows | src/hashcode2017/Main.java:21-22 | the table as rows of values, entry for entry |
| CacheTables.BuildLatencies | src/hashcode2017/Main.java:62-82 | the (C+1) x E table: row C starts at the origin latency and every other row at Integer.MAX_VALUE, and every row then takes the latency of the last connection line naming it |
| CacheTables.BuildRequests | src/hashcode2017/Main.java:84-90 | the E x V table holds the summed count of each (endpoint, video) pair |
| Knapsack.Seeded | src/hashcode2017/Main.java:167-170 | only entry sizes[0] may change; it becomes X when video 0's value is at most X |
| Knapsack.Relax | src/hashcode2017/Main.java:174-180 | the one-video relaxation keeps the table's length; RelaxRow proves the downward in-place loop equal to it, and TableBound and TableAttained state what the entries mean |
| Knapsack.Table | src/hashcode2017/Main.java:172-181 | the table after videos 1..n-1 keeps its length; TableBound and TableAttained state that each entry is the best value of a fitting subset |
| Knapsack.TableBound | src/hashcode2017/Main.java:172-181 | no subset of videos 1..n-1 that fits in b does better than table entry b (upper-bound half of the DP's correctness) |
| Knapsack.TableAttained | src/hashcode2017/Main.java:172-181 | some subset of videos 1..n-1 that fits in b attains entry b exactly (the attainment half of the DP's correctness) |
| Knapsack.AttainedTaking | src/hashcode2017/Main.java:176-179 | when the relaxation takes video n-1 at b, a subset attaining the previous table at b - size, with n-1 added, attains b |
| Knapsack.AttainedSkipping | src/hashcode2017/Main.java:176-179 | when it does not take it, a subset attaining the previous table at b still attains b |
| Knapsack.TableNeverDecreases | src/hashcode2017/Main.java:172-181 | relaxing more videos never lowers an entry |
| Knapsack.InitialSlots | src/hashcode2017/Main.java:188-196 | X+1 empty lists headed by Integer.MAX_VALUE, except slot X, headed by the table's value at X |
| Knapsack.Pass | src/hashcode2017/Main.java:200-213 | the pass for one video keeps one slot per capacity; PassLowersHeads and PassKeepsSlotsOk state its effect |
| Knapsack.PassLowersHeads | src/hashcode2017/Main.java:200-213 | a pass never raises a head, and a slot whose head is unchanged is unchanged |
| Knapsack.InitialSlotsOk | src/hashcode2017/Main.java:188-196 | the initial slots satisfy the back-substitution invariant |
| Knapsack.ExtendSlotOk | src/hashcode2017/Main.java:204-211 | a list taken over from slot t + size(x), with x appended, is valid for slot t |
| Knapsack.PassKeepsSlotsOk | src/hashcode2017/Main.java:200-213 | the pass for video x preserves the invariant |
| Knapsack.RecoverKeepsSlotsOk | src/hashcode2017/Main.java:198-214 | all passes preserve the invariant |
| Knapsack.Recover | src/hashcode2017/Main.java:198-214 | the passes over all videos keep one slot per capacity; RecoverKeepsSlotsOk states the invariant they keep |
| Knapsack.Recovered | src/hashcode2017/Main.java:185-219 | defined by its body (slot 0's list after all passes); RecoveredIsSound states that it is sound |
| Knapsack.RecoveredIsSound | src/hashcode2017/Main.java:185-219 | the returned list has strictly decreasing ids, only videos 0..V-1, and total size at most X; slot 0's head is its chain's start minus the list's value |
| Knapsack.SolvedTable | src/hashcode2017/Main.java:165-182 | a cache's table has X+1 entries |
| Knapsack.SolutionFits | src/hashcode2017/Main.java:185-219 | the list chosen for a cache holds no video twice, only existing videos, and fits in X |
| CacheAssignment.CacheNetwork.Load | src/hashcode2017/Main.java:60-90 | the network is valid, its latency entries start at the origin latency in row C and Integer.MAX_VALUE elsewhere, and every row then takes the last connection line naming it, and its request entries are the summed counts |
| CacheAssignment.CacheNetwork.Gain | src/hashcode2017/Main.java:150-161 | defined by its body (the sum over endpoints of saving times requests); properties in GainNonNegative, UnreachableGainsNothing and CalculateKnapsackValues |
| CacheAssignment.CacheNetwork.GainNonNegative | src/hashcode2017/Main.java:150-161 | with non-negative counts, a video's value is never negative |
| CacheAssignment.CacheNetwork.UnreachableGainsNothing | src/hashcode2017/Main.java:155-160 | a cache no faster than the best-known latency for any endpoint gives the video value 0 |
| CacheAssignment.CacheNetwork.ColumnAt | src/hashcode2017/Main.java:158 | row k of a column of the latency table is entry (k, j) |
| CacheAssignment.CacheNetwork.CalculateKnapsackValues | src/hashcode2017/Main.java:150-162 | each video's value is the sum over endpoints of the latency saving times the requests |
| CacheAssignment.CacheNetwork.Quick | src/hashcode2017/Main.java:105-138 | a best-known latency never exceeds the origin latency |
| CacheAssignment.CacheNetwork.QuickBelowHolders | src/hashcode2017/Main.java:130-138 | a best-known latency is at most the latency of every cache that already holds the video |
| CacheAssignment.CacheNetwork.QuickNeverIncreases | src/hashcode2017/Main.java:130-138 | placing a list never raises a best-known latency, and it changes only the listed videos |
| CacheAssignment.CacheNetwork.ColumnIsHistory | src/hashcode2017/Main.java:126 | a table holding the best-known latencies has their history as its columns |
| CacheAssignment.CacheNetwork.ValuesAt | src/hashcode2017/Main.java:126 | value j for the next cache is the gain computed from video j's best-known latencies |
| CacheAssignment.CacheNetwork.SolveKnapsack | src/hashcode2017/Main.java:165-182 | fails, leaving the table untouched, exactly when there is no video 0 or the seeded size lies outside 0..X; otherwise the table is the seeded and relaxed DP table |
| CacheAssignment.CacheNetwork.RelaxRow | src/hashcode2017/Main.java:174-180 | the downward loop gives exactly the one-video relaxation of the old table |
| CacheAssignment.CacheNetwork.RecoverKnapsackSolution | src/hashcode2017/Main.java:185-219 | the returned list is the back-substitution from the table's value at X, and it fits the cache |
| CacheAssignment.CacheNetwork.NewSlots | src/hashcode2017/Main.java:188-196 | the fresh slots are the initial slots |
| CacheAssignment.CacheNetwork.PassSlots | src/hashcode2017/Main.java:200-213 | the rising loop over y gives exactly the pass of the old slots |
| CacheAssignment.CacheNetwork.CopyIds | src/hashcode2017/Main.java:207-210 | the copy has the same ids in the same order |
| CacheAssignment.CacheNetwork.LowerLatencies | src/hashcode2017/Main.java:131-138 | each listed video's entries drop to the minimum with cache c's latency, and every other entry is unchanged |
| CacheAssignment.CacheNetwork.ChosenFits | src/hashcode2017/Main.java:120-128 | a chosen list fits its cache |
| CacheAssignment.CacheNetwork.ChosenExtend | src/hashcode2017/Main.java:120-128 | whether list i is chosen depends only on lists 0..i |
| CacheAssignment.CacheNetwork.ChosenUnique | src/hashcode2017/Main.java:120-145 | the chooser is deterministic: two sequences of lists, each chosen after the ones before it, agree |
| CacheAssignment.CacheNetwork.SolvableWhenFirstFits | src/hashcode2017/Main.java:167-170 | a cache's knapsack can always run when video 0 exists and fits in X; when it cannot, one of those two fails |
| CacheAssignment.CacheNetwork.InitQuick | src/hashcode2017/Main.java:102-111 | every entry of the E x V table starts at the endpoint's origin latency |
| CacheAssignment.CacheNetwork.Clear | src/hashcode2017/Main.java:122 | every entry becomes 0 |
| CacheAssignment.CacheNetwork.ValueVideos | src/hashcode2017/Main.java:126 | the value array equals the values computed from the best-known latencies after the previous lists |
| CacheAssignment.CacheNetwork.SolveAndRecover | src/hashcode2017/Main.java:127-128 | from an all-zero table, it succeeds exactly when the knapsack is solvable, and then returns that knapsack's list, which fits |
| CacheAssignment.CacheNetwork.FillCache | src/hashcode2017/Main.java:120-138 | one cache's turn succeeds exactly when its knapsack is solvable; it then chooses that knapsack's list and leaves the table holding the best-known latencies after that list |
| CacheAssignment.CacheNetwork.AssignVideosToCaches | src/hashcode2017/Main.java:100-147 | either every cache gets the list chosen after the previous ones, and every list fits its cache, or the chooser stops at the first cache whose knapsack would index outside an array, which happens only with no videos or video 0 larger than X; with video 0 fitting, it always assigns |

## Left out

- Reading the input files and writing the output files (`getInput`'s parsing, `output`, the `Files` enum and the progress printing) are not modelled. The model starts from the parsed integers, and it returns the lists themselves. `output` writes the rides of each car in list order, but each cache's video list from last to first (`src/hashcode2017/Main.java:230-233`), so the written order of a cache's videos is the reverse of the model's list.
- 32-bit wrap-around is not modelled: integers are unbounded, and no bound on the inputs is assumed. In Java, a video's value (`src/hashcode2017/Main.java:158-159`, latency saving times summed requests over all endpoints), the knapsack entries (line 178, values added across videos), the back-substitution heads (lines 202-206) and the ride times and scores can pass 2^31 - 1 and wrap; the model computes the mathematical values instead. Integer.MAX_VALUE is kept as the constant that marks "no connection".
- RideModel.SourceScore: the score is an exact fraction, not a rounded `double`. Two scores that rounding would make equal compare as different here. `Math.pow` with the exponent `POW = 1` is the identity.
- RideLoading.SortByStart: the result of `Collections.sort` (a stable sort) is stated, not its merge-sort algorithm. It is written as an insertion sort.
- The class `Dispatcher`: a `CarInfo` object updated in place is modelled as an array slot holding a `Car` value. The score function is a parameter, as in `getAssignment`. The grid dimensions R and C are not modelled because the dispatcher never reads them.
- CacheAssignment.CacheNetwork.Load: requires every video size to be at least 1, every connection line to name a row in 0..C, and every request line to name an existing endpoint and video. Java would throw on the latter two, and the zero-size case of the knapsack is not modelled.
- The class `CacheNetwork`: once loaded, the latency and request tables are held as sequence values, because the chooser never writes them. They are built in place as arrays by `BuildLatencies` and `BuildRequests`.
- CacheAssignment.CacheNetwork.AssignVideosToCaches: where the source throws an `ArrayIndexOutOfBoundsException`, the model returns `OutOfBounds`. The lists chosen before that cache come back as a ghost output, not as a program value.
- CacheAssignment.CacheNetwork.RecoverKnapsackSolution: the recovered list is proved sound (no repeats, existing videos, within capacity), and no claim is made that it attains the table's value at X.
