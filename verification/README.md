# Monkeysort core in Dafny

This project models the simulation core of Monkeysort, an idle game written in Kotlin. In the game, monkeys sort a grid of fruit one swap at a time. The model covers these parts:

- **Fruit and grid** (`fruit.dfy`, `grid_model.dfy`).
  - The fifteen `Fruit` constants and the order on their names.
  - The `rows × cols` grid as `seq<seq<Fruit>>`, with `get`, `set`, `fill` and `isSorted`.
  - Combo detection (`getComboCellsAt`) and the two counting queries.
- **Lock registry** (`lock_manager.dfy`). A sequential `set<Pos>` with the all-or-nothing `tryLock`, plus `unlock` and `clear`.
- **Planners** (`strategies.dfy`, `sort_strategy.dfy`).
  - Bogo, bubble and insertion `getNextTask`. Each poll yields at most one `ShuffleTask`.
  - The `makeStrategy` factory.
  - The cursors of the bubble and insertion planners are explicit values.
- **Monkey** (`monkey_states.dfy`, `monkey.dfy`).
  - The seven phases (Idle, Wandering, Chatting, Dancing, MovingToSource, Carrying, Returning) and their handlers.
  - The `algorithm` setter, `assignTask`, `isIdle`, the speed table.
  - The progress loop of `Monkey.update`.
- **Controller** (`game_controller.dfy`).
  - `tick`: the pause check, then the monkeys in list order.
  - The new-monkey price, the upgrade fee, `buyMonkey` and `upgradeAllMonkeysTo`.
  - The initial monkey list.
  - Coins and the time factor are explicit state, not globals.
- **Whole-game invariant** (`game_invariant.dfy`, `game_tick.dfy`).
  - The lock registry always equals the union of the `{from, to}` cells of the monkeys that are on a task.
  - Those tasks never share a cell.
  - A tick neither creates nor destroys fruit. This counts the grid together with the fruit the monkeys carry.
- **Sort convergence** (`convergence.dfy`). A bubble or insertion planner sorts a grid without EMPTY cells in finitely many polls, provided each task is carried out before the next poll.

Where the source reads randomness, it becomes an oracle parameter:

- `BogoDraw` for the bogo planner's draws.
- `dice: nat -> int` for the `(1..5).random()` rolls.
- `draw(row, col)` for grid initialisation.

The game's `Double` quantities (progress, timers, `timeFactor`, `delta`) are `real`.

Three behaviours of the code are easy to misread, and the model keeps them as written:

- **EMPTY ordering.** Sortedness compares the constants' `name`s (GridModel.kt:9), so EMPTY sorts as `"EMPTY"`, between CHERRY and GRAPE (Fruit.kt:20), not first.
- **Bubble index.** The bubble planner increments its index before it returns a pair (Strategies.kt:32-34), so the next poll starts past that pair.
- **Insertion at the end.** Once `sortedIndex >= totalCells` the insertion planner returns `null` on every poll (Strategies.kt:52-54). It never wraps back to the start.

## Model

| member | source | states |
|---|---|---|
| Fruits.RealFruitsAreTheNonEmptyOnes | src/main/kotlin/com/segerend/Fruit.kt:6-20 | There are fifteen constants. The fourteen that `random()` picks from are exactly the ones other than EMPTY. |
| Fruits.RandomFruit | src/main/kotlin/com/segerend/Fruit.kt:23 | `Fruit.random()` never yields EMPTY, whatever the draw. |
| Fruits.NamesAreDistinct | src/main/kotlin/com/segerend/Fruit.kt:6-20 | Two constants have the same name iff they are the same constant. |
| Fruits.NameOrderIsRankOrder | src/main/kotlin/com/segerend/Fruit.kt:6-20 | The string order of the constants' names is a strict total order: one name is below another iff its rank is. |
| Fruits.EmptySortsBetweenCherryAndGrape | src/main/kotlin/com/segerend/Fruit.kt:6-20 | By name, EMPTY sorts after CHERRY and before GRAPE. Exactly APPLE, BANANA, BLUEBERRY and CHERRY sort below it. |
| Fruits.NameLessEq | src/main/kotlin/com/segerend/GridModel.kt:9 | `a.name <= b.name` holds iff rank(a) <= rank(b). |
| Fruits.NameGreater | src/main/kotlin/com/segerend/sorting/Strategies.kt:33 | `a.name > b.name` holds iff rank(a) > rank(b). |
| GridModel.NewGrid | src/main/kotlin/com/segerend/GridModel.kt:5-6 | A new grid has the requested dimensions and no EMPTY cell. |
| GridModel.Set | src/main/kotlin/com/segerend/GridModel.kt:11 | After `set(p, f)`, `get(p)` is `f`. Every other cell and the dimensions are unchanged. |
| GridModel.Fill | src/main/kotlin/com/segerend/GridModel.kt:13-19 | After `fill(f)`, every cell holds `f`. |
| GridModel.FillIsSorted | src/main/kotlin/com/segerend/GridModel.kt:13-19 | A filled grid is sorted. In particular, an all-EMPTY grid is sorted. |
| GridModel.IsSorted | src/main/kotlin/com/segerend/GridModel.kt:9 | `isSorted()` holds iff the row-major flattening never decreases in rank, over all pairs of cells. |
| GridModel.NeighboursInOrderIsSorted | src/main/kotlin/com/segerend/GridModel.kt:9 | Checking neighbours only (`zipWithNext`) is equivalent to ordering every pair. |
| GridModel.Reach | src/main/kotlin/com/segerend/GridModel.kt:25-34 | `collectMatches` walks exactly the maximal streak of the fruit in one direction. Every step holds the fruit, and the next cell is off the grid or different. |
| GridModel.RunMembers | src/main/kotlin/com/segerend/GridModel.kt:36-37 | A cell is in the horizontal (vertical) list iff it lies on `p`'s row (column) and the whole stretch between it and `p` holds `p`'s fruit. |
| GridModel.RunIsDistinct | src/main/kotlin/com/segerend/GridModel.kt:36-37 | After `drop(1)`, the joined list repeats no position: `p` is counted once. |
| GridModel.ComboCellsAt | src/main/kotlin/com/segerend/GridModel.kt:21-42 | The result is empty on an EMPTY cell. Every member is in bounds, holds `p`'s fruit and shares `p`'s row or column. A non-empty result contains `p`. |
| GridModel.ComboMembership | src/main/kotlin/com/segerend/GridModel.kt:36-41 | `q` is in the result iff `p` holds a fruit and `q` is on `p`'s horizontal run of length ≥ 3 or on its vertical run of length ≥ 3. |
| GridModel.ComboSize | src/main/kotlin/com/segerend/GridModel.kt:36-41 | Size is h + v - 1 when both runs reach 3, the one run's length when only one does, and 0 otherwise. So the result is empty or has at least 3 cells. |
| GridModel.LoneFruitHasNoCombo | src/main/kotlin/com/segerend/GridModel.kt:21-42 | A fruit with no equal neighbour in any direction has no combo. |
| GridModel.SameFruitCount | src/main/kotlin/com/segerend/GridModel.kt:44-46 | The count is the multiplicity of the fruit in the grid's cells. |
| GridModel.SameFruitNeighborCount | src/main/kotlin/com/segerend/GridModel.kt:48-62 | The result is the length of a longest run of the fruit in the row-major flattening, with runs continuing from one row into the next. |
| GridModel.NeighborCountAtMostCount | src/main/kotlin/com/segerend/GridModel.kt:44-62 | The longest streak never exceeds the number of cells holding the fruit. |
| LockManager.AnyLocked | src/main/kotlin/com/segerend/LockManager.kt:8 | True iff some requested position is already held. |
| LockManager.TryLock | src/main/kotlin/com/segerend/LockManager.kt:7-11 | Succeeds iff no requested position is held. On success the registry is old ∪ requested. On failure it is unchanged. |
| LockManager.Unlock | src/main/kotlin/com/segerend/LockManager.kt:13-14 | Exactly the given positions are released. All other locks remain. |
| LockManager.Clear | src/main/kotlin/com/segerend/LockManager.kt:16-18 | Nothing is held afterwards. |
| LockManager.TryLockPairAllOrNothing | src/main/kotlin/com/segerend/LockManager.kt:7-11 | Locking `(from, to)` either takes both positions or changes nothing. It never takes just one. |
| LockManager.RelockFails | src/main/kotlin/com/segerend/LockManager.kt:7-11 | After a successful `tryLock(p)`, a second `tryLock(p)` fails and leaves the registry as it was. |
| LockManager.UnlockThenRelock | src/main/kotlin/com/segerend/LockManager.kt:7-14 | After `unlock(p)`, `tryLock(p)` succeeds again. |
| LockManager.UnlockUndoesTryLock | src/main/kotlin/com/segerend/LockManager.kt:7-14 | Unlocking what a successful `tryLock` took restores the registry it started from. |
| LockManager.ClearThenLock | src/main/kotlin/com/segerend/LockManager.kt:16-18 | After `clear()`, any positions can be locked, and the registry is exactly those positions. |
| Strategies.SwappableComparesNames | src/main/kotlin/com/segerend/sorting/Strategies.kt:33 | The planners' test (both non-EMPTY, first name strictly greater) is the rank comparison the model uses. |
| Strategies.PairTask | src/main/kotlin/com/segerend/sorting/Strategies.kt:28-34 | The task for flat indices `k`, `k + 1` goes from `Pos(k / cols, k % cols)` to `Pos((k+1) / cols, (k+1) % cols)`. It carries the fruit at `from`, and its ends are distinct cells. |
| Strategies.FirstOther | src/main/kotlin/com/segerend/sorting/Strategies.kt:16 | The retry loop keeps the first target draw that differs from `from`. |
| Strategies.BogoNext | src/main/kotlin/com/segerend/sorting/Strategies.kt:11-19 | Null iff the drawn source is EMPTY. Otherwise the task starts at the drawn source, carries its fruit, and ends at the first target drawn that is not the source. |
| Strategies.BogoNeedsTwoCells | src/main/kotlin/com/segerend/sorting/Strategies.kt:16 | A bogo draw whose source holds a fruit, and so yields a task, needs a grid of at least two cells. |
| Strategies.BubbleNext | src/main/kotlin/com/segerend/sorting/Strategies.kt:21-41 | Keeps `0 ≤ index ≤ total − 1 − pass` and `0 ≤ pass < total − 1`. A task keeps the pass, moves the index forward, and fits the grid. |
| Strategies.BubbleTaskIsFirstInversion | src/main/kotlin/com/segerend/sorting/Strategies.kt:27-35 | A returned task is the first inverted pair at or after the index, and the index already points past it. |
| Strategies.BubbleNoTaskMeansNoInversion | src/main/kotlin/com/segerend/sorting/Strategies.kt:27-40 | A null poll means no inverted pair in `[index, total − 1 − pass)`. The index resets to 0 and the pass goes up by one, wrapping to 0 at `total − 1`. |
| Strategies.InsertionNext | src/main/kotlin/com/segerend/sorting/Strategies.kt:44-81 | **Finished:** once `sortedIndex ≥ total`, the poll returns null and changes nothing. **Task:** after stepping `compareIndex` back if a swap was made, the poll returns `(compareIndex − 1, compareIndex)` for a strict inversion and sets `didSwap`. **Otherwise:** `sortedIndex` advances and `compareIndex` resets to it. `sortedIndex` never decreases. |
| Strategies.InsertionFinishedForever | src/main/kotlin/com/segerend/sorting/Strategies.kt:52-54 | A finished insertion planner stays exactly as it is under any number of polls. |
| Strategies.InsertionPolls | src/main/kotlin/com/segerend/sorting/Strategies.kt:44-81 | Over any number of polls the cursor stays reachable and `sortedIndex` never decreases. |
| Strategies.FirstPollOnReversedRow | src/test/kotlin/com/segerend/sorting/BubbleSortStrategyTest.kt:37-45 | On [CHERRY, BANANA, APPLE], a fresh bubble or insertion planner returns `((0,0), (0,1), CHERRY)`. |
| Strategies.FirstPollOnSortedRow | src/test/kotlin/com/segerend/sorting/BubbleSortStrategyTest.kt:48-55 | On [APPLE, BANANA, CHERRY], a fresh bubble planner returns null. |
| SortStrategy.MakeStrategy | src/main/kotlin/com/segerend/sorting/SortStrategy.kt:12-16 | `makeStrategy` yields a planner of the requested algorithm and size, with the initial cursors: bubble (0, 0), insertion (1, 1, no swap). |
| SortStrategy.MakeStrategyIsFresh | src/main/kotlin/com/segerend/sorting/SortStrategy.kt:12-16 | Any planner of that algorithm, size and initial cursor is the one `makeStrategy` builds. |
| SortStrategy.GetNextTask | src/main/kotlin/com/segerend/sorting/SortStrategy.kt:8-10 | A poll keeps the planner's algorithm and size. Any task it returns has distinct in-bounds ends, and `fruit` is what `from` holds. |
| MonkeyStates.CompleteMovingToSource | src/main/kotlin/com/segerend/monkey/States.kt:67-72 | Picking up: the monkey carries the old `grid[from]`, `grid[from]` becomes EMPTY and the phase becomes Carrying. No other cell changes. |
| MonkeyStates.ComboReward | src/main/kotlin/com/segerend/monkey/States.kt:95-96 | The reward is positive iff the combo has at least 2 cells, and then it is `size × 15`. |
| MonkeyStates.CompleteCarrying | src/main/kotlin/com/segerend/monkey/States.kt:88-98 | Delivering: `grid[to]` gets the carried fruit, the monkey now carries the old `grid[to]`, and the phase becomes Returning. Coins rise by the combo reward at `to`. |
| MonkeyStates.DeliveryPaysOnlyForCombos | src/main/kotlin/com/segerend/monkey/States.kt:93-98 | Coins rise iff the combo at `to` has at least 3 cells, and by exactly `size × 15`. |
| MonkeyStates.CompleteReturning | src/main/kotlin/com/segerend/monkey/States.kt:115-120 | Returning: `grid[from]` gets the carried fruit and the hands are empty. Exactly `from` and `to` are unlocked, and the phase becomes Idle. |
| MonkeyStates.TaskSwapsCells | src/main/kotlin/com/segerend/monkey/States.kt:67-120 | For `from ≠ to`, the three completions exchange `grid[from]` and `grid[to]` and leave every other cell as it was. They also keep the multiset of cells, release both locks, and end Idle and empty-handed. |
| MonkeyStates.SelfTaskErasesFruit | src/main/kotlin/com/segerend/monkey/States.kt:67-120 | For `from = to`, the same completions leave that cell EMPTY. |
| MonkeyStates.PickUpKeepsStock | src/main/kotlin/com/segerend/monkey/States.kt:67-72 | Each fruit's count (grid plus hands) is the same before and after picking up. |
| MonkeyStates.DeliveryKeepsStock | src/main/kotlin/com/segerend/monkey/States.kt:88-92 | Each fruit's count (grid plus hands) is the same before and after delivering. |
| MonkeyStates.ReturnKeepsStock | src/main/kotlin/com/segerend/monkey/States.kt:115-120 | Returning keeps each fruit's count iff `grid[from]` is still EMPTY. |
| MonkeyStates.IdleUpdate | src/main/kotlin/com/segerend/monkey/States.kt:43-49 | An Idle update stays Idle iff the roll is not 1, 2 or 3. Otherwise it starts a walk, a chat or a dance from zero. |
| MonkeyStates.CompleteWandering | src/main/kotlin/com/segerend/monkey/States.kt:145-152 | A finished walk goes Idle iff the roll is 1. Otherwise a new walk starts with progress 0. |
| MonkeyStates.IdleNeverStartsTask | src/main/kotlin/com/segerend/monkey/States.kt:43-49 | Neither an Idle update nor a finished walk enters a task phase. |
| MonkeyStates.TimedUpdate | src/main/kotlin/com/segerend/monkey/States.kt:164-167 | Chatting and Dancing add `timeFactor` to the timer, and go Idle iff the timer reaches 100. |
| MonkeyStates.ChatCountsUp | src/main/kotlin/com/segerend/monkey/States.kt:160-167 | While under 100, the timer after `n` updates is `n × timeFactor`. |
| MonkeyStates.ChatLastsOneHundredUpdates | src/main/kotlin/com/segerend/monkey/States.kt:160-167 | At time factor 1, chatting is still on after 99 updates and over after 100. |
| Monkeys.IsIdle | src/main/kotlin/com/segerend/monkey/Monkey.kt:101-103 | `isIdle()` holds iff the phase is not one of the three task phases. |
| Monkeys.NewMonkey | src/main/kotlin/com/segerend/monkey/Monkey.kt:16-28 | A new monkey is Idle and carries nothing. Its planner is `makeStrategy(algorithm, ROWS, COLS)`, built from the `ROWS/COLS` values in force, which are passed as a parameter. |
| Monkeys.WithAlgorithm | src/main/kotlin/com/segerend/monkey/Monkey.kt:17-21 | Setting the algorithm installs a fresh planner for the new value, sized by the `ROWS/COLS` values in force. Phase and hands are kept. |
| Monkeys.SpeedPerTick | src/main/kotlin/com/segerend/monkey/Monkey.kt:30-34 | The speed is 25 for BUBBLE and INSERTION and 1 for BOGO. |
| Monkeys.AssignTask | src/main/kotlin/com/segerend/monkey/Monkey.kt:36-41 | Succeeds iff neither cell is locked. **On success:** both cells are locked and the phase is MovingToSource at progress 0. **On failure:** nothing changes. |
| Monkeys.Complete | src/main/kotlin/com/segerend/monkey/Monkey.kt:52-53 | A handler moves MovingToSource to Carrying, Carrying to Returning, and Returning to Idle with empty hands. A walk leaves the world alone. A new progress phase starts at 0, and coins never fall. |
| Monkeys.Advance | src/main/kotlin/com/segerend/monkey/Monkey.kt:46-60 | **Keeps:** the progress loop keeps progress in [0, 1) and the grid's shape, and never lowers coins. **No-op:** it changes nothing when there is no progress to hand out or no progress phase. |
| Monkeys.Update | src/main/kotlin/com/segerend/monkey/Monkey.kt:43-64 | `update` keeps the monkey's invariant, algorithm and planner. Idle, Chatting and Dancing get one update that leaves the world and the hands alone and starts no task. |
| Monkeys.WholeTaskInOneUpdate | src/main/kotlin/com/segerend/monkey/Monkey.kt:43-64 | With at least 3 units of progress, a new task runs to the end in one update. The cells are exchanged, both locks are released, the monkey is Idle and empty-handed, and the leftover progress is dropped. |
| GameController.Engage | src/main/kotlin/com/segerend/GameController.kt:23-26 | An idle monkey polls `getNextTask` once and keeps the advanced planner either way. It takes the polled task exactly when there is one and both its cells are unlocked. **On success:** it is MovingToSource(task, 0) and both cells are added to the locks. **On failure:** locks and phase are unchanged. |
| GameController.Turn | src/main/kotlin/com/segerend/GameController.kt:22-28 | One monkey's turn keeps the game well formed and leaves every other monkey untouched. |
| GameController.StartTurn | src/main/kotlin/com/segerend/GameController.kt:23-26 | A busy monkey does not poll: it and the lock registry are left exactly as they were; after a poll the monkey stays well placed, keeps its algorithm, and its planner stays sized for the grid. |
| GameController.TurnsFrom | src/main/kotlin/com/segerend/GameController.kt:22-28 | The turns from monkey `i` on leave earlier monkeys untouched and keep every algorithm and the monkey count. |
| GameController.Tick | src/main/kotlin/com/segerend/GameController.kt:16-30 | At time factor 0, `tick` changes nothing. Otherwise it keeps the game well formed, the monkey count and their algorithms, and never lowers coins. |
| GameController.NewMonkeyPrice | src/main/kotlin/com/segerend/GameController.kt:32-34 | The price is at least `MONKEY_BASE_COST`. |
| GameController.NewMonkeyPriceRises | src/main/kotlin/com/segerend/GameController.kt:32-34 | Each monkey bought makes the next one strictly dearer. |
| GameController.NewMonkeyPriceMonotone | src/main/kotlin/com/segerend/GameController.kt:32-34 | More monkeys never means a lower price. |
| GameController.FirstMonkeyPrices | src/main/kotlin/com/segerend/GameController.kt:32-34 | The first prices are 75, 82, 90 and 99. |
| GameController.Running | src/main/kotlin/com/segerend/GameController.kt:37 | The count is at most the monkey count, and zero iff no monkey runs the algorithm. |
| GameController.UpgradeAllFee | src/main/kotlin/com/segerend/GameController.kt:36-41 | The fee is at least the start fee, or half of it when no monkey runs the algorithm yet. |
| GameController.BuyMonkey | src/main/kotlin/com/segerend/GameController.kt:43-51 | **Coins ≥ price:** succeeds, debits exactly the price (coins stay ≥ 0) and appends one BOGO monkey built with the `ROWS/COLS` values in force. **Otherwise:** changes nothing. |
| GameController.UpgradeAllMonkeysTo | src/main/kotlin/com/segerend/GameController.kt:53-62 | **Coins < fee:** nothing changes. **Otherwise:** the fee is debited once, coins stay ≥ 0, every monkey ends on the algorithm, and monkeys already on it keep their planner. Each reassigned monkey gets a fresh planner sized by the `ROWS/COLS` values in force. Phases and hands are kept. |
| GameController.UpgradeAllToBubble | src/main/kotlin/com/segerend/GameController.kt:64-66 | With the 750 start fee, all monkeys end on BUBBLE when affordable; otherwise nothing changes. |
| GameController.UpgradeAllToInsertion | src/main/kotlin/com/segerend/GameController.kt:68-70 | With the 1500 start fee, all monkeys end on INSERTION when affordable; otherwise nothing changes. |
| GameController.NewGame | src/main/kotlin/com/segerend/GameController.kt:11-13 | `GameController(rows, cols)` has a rows×cols grid without EMPTY. It has one BOGO monkey, whose planner is sized by the `ROWS/COLS` values in force rather than by `rows` and `cols`. Coins, time factor and lock registry are process-wide, so the new controller starts with the values in force, which are passed as parameters (50, 1 and nothing locked at start-up). |
| GameController.BuyKeepsWellformed | src/main/kotlin/com/segerend/GameController.kt:43-51 | Buying keeps every monkey's planner fitting the grid, whatever `ROWS/COLS` are set to, because the new monkey is a BOGO monkey. |
| GameController.UpgradeKeepsWellformed | src/main/kotlin/com/segerend/GameController.kt:53-62 | Upgrading with `ROWS/COLS` no larger than the grid keeps every monkey's planner fitting the grid. |
| GameController.UpgradeTwiceChangesNoMonkey | src/main/kotlin/com/segerend/GameController.kt:58 | A second upgrade to the same algorithm reassigns no monkey, even if `ROWS/COLS` changed in between. |
| GameInvariant.UpdateLocal | src/main/kotlin/com/segerend/monkey/Monkey.kt:43-64 | **Cells:** one update changes only the cells of the monkey's own task. **Locks:** it only releases those cells, and its task never grows. **Stock:** each fruit's count (grid plus hands) is kept. |
| GameInvariant.EngageKeeps | src/main/kotlin/com/segerend/GameController.kt:23-26 | Polling and assigning keep the lock invariant and every fruit's stock. |
| GameInvariant.TurnKeeps | src/main/kotlin/com/segerend/GameController.kt:22-28 | One monkey's turn keeps the lock invariant, keeps tasks apart, and keeps every fruit's stock. |
| GameInvariant.NewGameKeepsInvariant | src/main/kotlin/com/segerend/GameController.kt:11-13 | A new game of any size, whatever `ROWS/COLS` are set to, satisfies the invariant exactly when the inherited lock registry is empty. |
| GameInvariant.BuyKeepsInvariant | src/main/kotlin/com/segerend/GameController.kt:43-51 | Buying a monkey keeps the invariant, whatever `ROWS/COLS` are set to. |
| GameInvariant.UpgradeKeepsInvariant | src/main/kotlin/com/segerend/GameController.kt:53-62 | Upgrading with `ROWS/COLS` no larger than the grid keeps the invariant. |
| GameTick.TurnsFromKeep | src/main/kotlin/com/segerend/GameController.kt:22-28 | The monkeys' turns in list order keep the invariant and every fruit's stock. |
| GameTick.TurnThenKeep | src/main/kotlin/com/segerend/GameController.kt:22-28 | With monkey `i` still to move, its turn and those after it keep the invariant and every fruit's stock. |
| GameTick.TickKeepsInvariant | src/main/kotlin/com/segerend/GameController.kt:16-30 | After a tick, the locked set is the union of the `{from, to}` of the monkeys on a task, no two tasks share a cell, and no fruit is created or lost. |
| Convergence.NoInversionIsSorted | src/main/kotlin/com/segerend/GridModel.kt:9 | A grid of fruit in which the planners' test finds no neighbour pair is sorted. |
| Convergence.BubbleRun | src/main/kotlin/com/segerend/sorting/Strategies.kt:21-41 | Polling and carrying out tasks only permutes the cells, and never creates an EMPTY cell. |
| Convergence.BubbleIdleOnSorted | src/main/kotlin/com/segerend/sorting/Strategies.kt:27-40 | On a sorted grid, a bubble poll yields no task, whatever the cursor. |
| Convergence.BubbleStaysSorted | src/main/kotlin/com/segerend/sorting/Strategies.kt:27-40 | A sorted grid stays as it is under any number of bubble polls. |
| Convergence.BubbleConverges | src/main/kotlin/com/segerend/sorting/Strategies.kt:21-41 | From any reachable cursor, a grid of fruit is sorted after finitely many polls. |
| Convergence.BubbleSorts | src/test/kotlin/com/segerend/sorting/BubbleSortStrategyTest.kt:103-118 | A fresh bubble planner sorts a grid of fruit. |
| Convergence.InsertionRun | src/main/kotlin/com/segerend/sorting/Strategies.kt:44-81 | Polling and carrying out tasks only permutes the cells, and never creates an EMPTY cell. |
| Convergence.InsertionTaskKeeps | src/main/kotlin/com/segerend/sorting/Strategies.kt:62-70 | **Task:** the inserted cell moves one place left, keeping the insertion-sort invariant. **Progress:** the weight rises. |
| Convergence.InsertionSettleKeeps | src/main/kotlin/com/segerend/sorting/Strategies.kt:71-80 | A null poll settles the inserted cell: the prefix up to `sortedIndex` is sorted. |
| Convergence.InsertionConverges | src/main/kotlin/com/segerend/sorting/Strategies.kt:44-81 | Under its invariant, an insertion planner finishes in finitely many polls and leaves the grid sorted. |
| Convergence.InsertionSorts | src/test/kotlin/com/segerend/sorting/InsertionSortStrategyTest.kt:92-106 | A fresh insertion planner sorts a grid of fruit and then reports nothing more. |

## Left out

- **Rendering.** JavaFX rendering, the `draw*` methods, the UI classes, sort strips and chart windows are not modelled.
- **Particles.** Particle effects are not modelled; `particleSystem.add` and `particleSystem.update` have no counterpart.
- **`Main.kt`** is not part of this model.
- **`getGridCopy()`.** A grid is an immutable value here, so a copy is the grid itself and is not modelled separately.
- **Screen geometry.** Draw positions, `lerp`, the wander radius and the clamp of the wander target are `Double` screen geometry and are not modelled. A walk is just a progress phase.
- **Randomness.** It enters as oracle parameters. The bogo retry loop is modelled on a finite sequence of target draws that contains some target other than the source; an endless run of equal draws is not modelled. Such a sequence needs at least two cells, so the tick lemmas (`GameController.Tick`, `GameTick.TickKeepsInvariant`) say nothing about 1×1 or empty grids, even when no monkey runs BOGO. On a 1×1 grid holding a fruit the source's retry loop (Strategies.kt:16) never ends. On a grid with no rows or columns `nextInt(0)` throws.
- **Floating point.**
  - `Double` arithmetic is modelled with exact reals.
  - `1.1.pow(n)` truncated to `Int` is modelled with exact integers: `75 × 11ⁿ / 10ⁿ`, and `startFee × 11ⁿ / 10ⁿ` halved when nobody runs the algorithm. Rounding of the floating-point power is not modelled.
- **`Int` overflow** of coins and prices is not modelled; integers are unbounded.
- **`@Synchronized`.** It has no sequential counterpart, and the registry is a plain value.
- **Grid size.** `GameConfig.ROWS/COLS` are mutable settings (start-up value 25, `GameConfig.StartSize`). The value in force is the `size` parameter of `NewMonkey`, `WithAlgorithm`, `NewGame`, `BuyMonkey` and the upgrades. The controller's own `rows` and `cols` are the first two parameters of `NewGame`.
- GameInvariant.UpgradeKeepsInvariant: assumes `ROWS/COLS` no larger than the controller's grid, and so does `GameController.UpgradeKeepsWellformed`. With larger settings an upgraded planner addresses cells off the grid, which the source reports as an out-of-bounds exception. That exception path is not modelled.
- **Planner ranges.** The planners' precondition `Covers` asks that a planner's range lie inside the grid, which the source leaves to its callers.
- **Order of the combo list.** The source returns `result.toList()` of a set, in insertion order. The model returns the set.
- **Self-swapping tasks.** A task with `from == to` would erase a fruit (`MonkeyStates.SelfTaskErasesFruit`). No planner emits one, and the invariant excludes it.
- **Tooling and stale code.** `GameConfig.fps`, the duplicate `Utils`, tests that call a missing `upgradeMonkey`, and the build files are not modelled.
- **Sort convergence** is proved for one planner whose every task is carried out before its next poll. With several monkeys on one grid, convergence is not claimed.
- GameController.NewMonkeyPrice: its contract gives only the lower bound `MONKEY_BASE_COST`. The exact values and growth are separate lemmas (`FirstMonkeyPrices`, `NewMonkeyPriceRises`).
- GameController.UpgradeAllFee: its contract gives lower bounds only. The exact fee is its definition, because the source's floating-point formula has no cleaner closed form.
- GameController.Tick: its contract gives the pause case and structural facts only. The lock and stock invariant is `GameTick.TickKeepsInvariant`.
