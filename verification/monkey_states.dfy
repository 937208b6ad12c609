/**
  The monkey's phases and what happens when each one ends. The three task
  phases (to the source, carrying, back) move fruit through the grid in
  their completion handlers; the four idle phases only pass the time.
  Screen coordinates, drawing and particle effects are not modelled.
 */
module MonkeyStates {
  import opened Optional
  import opened Fruits
  import opened GridModel
  import opened Tasks
  import opened LockManager
  import GameConfig

  /**
    The monkey's state. Progress phases carry their progress towards 1;
    Chatting and Dancing carry their timer.
   */
  datatype Phase =
    | Idle
    | Wandering(progress: real)
    | Chatting(timer: real)
    | Dancing(timer: real)
    | MovingToSource(task: ShuffleTask, progress: real)
    | Carrying(task: ShuffleTask, progress: real)
    | Returning(task: ShuffleTask, progress: real)

  /** The `ProgressState` subclasses: advanced by `Monkey.update`, ended by `onProgressComplete`. */
  predicate IsProgressPhase(ph: Phase) {
    ph.Wandering? || ph.MovingToSource? || ph.Carrying? || ph.Returning?
  }

  /** The phases that work on a task, and so hold its two cells locked. */
  predicate HasTask(ph: Phase) {
    ph.MovingToSource? || ph.Carrying? || ph.Returning?
  }

  /** The same phase with its progress replaced. */
  function WithProgress(ph: Phase, progress: real): (r: Phase)
    requires IsProgressPhase(ph)
    ensures IsProgressPhase(r) && r.progress == progress
    ensures HasTask(r) == HasTask(ph) && (HasTask(ph) ==> r.task == ph.task)
    ensures r.Wandering? == ph.Wandering? && r.MovingToSource? == ph.MovingToSource?
    ensures r.Carrying? == ph.Carrying? && r.Returning? == ph.Returning?
  {
    ph.(progress := progress)
  }

  /** What a completion handler may touch outside the monkey: the grid, the lock registry and the coin balance. */
  datatype World = World(grid: Grid, locks: set<Pos>, coins: int)

  /** The result of a handler: the monkey's next phase, the fruit it carries, and the world. */
  datatype Outcome = Outcome(phase: Phase, carried: Option<Fruit>, world: World)

  // ---------------------------------------------------------------------
  // The task phases
  // ---------------------------------------------------------------------

  /**
    `MovingToSourceState.onProgressComplete`: pick up the fruit at `from`,
    leaving the cell EMPTY, and set off towards `to`.
   */
  function CompleteMovingToSource(t: ShuffleTask, w: World): (r: Outcome)
    requires w.grid.Valid() && w.grid.InBounds(t.from)
    ensures r.phase == Carrying(t, 0.0)
    ensures r.carried == Some(Get(w.grid, t.from))
    ensures r.world.grid.Valid() && r.world.grid.rows == w.grid.rows && r.world.grid.cols == w.grid.cols
    ensures Get(r.world.grid, t.from) == EMPTY
    ensures forall q :: w.grid.InBounds(q) && q != t.from ==> Get(r.world.grid, q) == Get(w.grid, q)
    ensures r.world.locks == w.locks && r.world.coins == w.coins
  {
    var fruit := Get(w.grid, t.from);
    Outcome(Carrying(t, 0.0), Some(fruit), w.(grid := Set(w.grid, t.from, EMPTY)))
  }

  /** The coins a delivery earns: `size × 15` for a combo of size at least 2, else nothing. */
  function ComboReward(comboSize: nat): (coins: nat)
    ensures coins > 0 <==> comboSize >= 2
    ensures coins > 0 ==> coins == comboSize * GameConfig.ComboRewardMultiplier
  {
    if comboSize >= 2 then comboSize * GameConfig.ComboRewardMultiplier else 0
  }

  /**
    `CarryingState.onProgressComplete`: put the carried fruit down at `to`,
    take up what was there, head back, and earn the reward for the combo the
    delivery completes at `to`. `carried` must hold a fruit (the source
    asserts it with `!!`).
   */
  function CompleteCarrying(t: ShuffleTask, carried: Option<Fruit>, w: World): (r: Outcome)
    requires w.grid.Valid() && w.grid.InBounds(t.to) && carried.Some?
    ensures r.phase == Returning(t, 0.0)
    ensures r.carried == Some(Get(w.grid, t.to))
    ensures r.world.grid.Valid() && r.world.grid.rows == w.grid.rows && r.world.grid.cols == w.grid.cols
    ensures Get(r.world.grid, t.to) == carried.value
    ensures forall q :: w.grid.InBounds(q) && q != t.to ==> Get(r.world.grid, q) == Get(w.grid, q)
    ensures r.world.locks == w.locks
    ensures r.world.coins == w.coins + ComboReward(|ComboCellsAt(r.world.grid, t.to)|)
  {
    var previous := Get(w.grid, t.to);
    var grid := Set(w.grid, t.to, carried.value);
    var combo := ComboCellsAt(grid, t.to);
    Outcome(Returning(t, 0.0), Some(previous), World(grid, w.locks, w.coins + ComboReward(|combo|)))
  }

  /**
    `ReturningState.onProgressComplete`: put the fruit taken from `to` down
    at `from`, carry nothing, release both cells and go idle.
   */
  function CompleteReturning(t: ShuffleTask, carried: Option<Fruit>, w: World): (r: Outcome)
    requires w.grid.Valid() && w.grid.InBounds(t.from) && carried.Some?
    ensures r.phase == Idle && r.carried == None
    ensures r.world.grid.Valid() && r.world.grid.rows == w.grid.rows && r.world.grid.cols == w.grid.cols
    ensures Get(r.world.grid, t.from) == carried.value
    ensures forall q :: w.grid.InBounds(q) && q != t.from ==> Get(r.world.grid, q) == Get(w.grid, q)
    ensures forall q :: q in r.world.locks <==> q in w.locks && q != t.from && q != t.to
    ensures r.world.coins == w.coins
  {
    Outcome(Idle, None, World(Set(w.grid, t.from, carried.value), Unlock(w.locks, [t.from, t.to]), w.coins))
  }

  /** A delivery never costs coins, and it pays only for a real combo: at least three cells, 15 coins each. */
  lemma DeliveryPaysOnlyForCombos(t: ShuffleTask, carried: Option<Fruit>, w: World)
    requires w.grid.Valid() && w.grid.InBounds(t.to) && carried.Some?
    ensures var r := CompleteCarrying(t, carried, w);
      && r.world.coins >= w.coins
      && (r.world.coins > w.coins <==> |ComboCellsAt(r.world.grid, t.to)| >= 3)
      && r.world.coins - w.coins == |ComboCellsAt(r.world.grid, t.to)| * GameConfig.ComboRewardMultiplier
  {
    var r := CompleteCarrying(t, carried, w);
    if Get(r.world.grid, t.to) != EMPTY {
      ComboSize(r.world.grid, t.to);
    }
  }

  /** The three completions of one task, in order, starting empty-handed. */
  function PerformTask(t: ShuffleTask, w: World): (r: Outcome)
    requires w.grid.Valid() && w.grid.InBounds(t.from) && w.grid.InBounds(t.to)
    ensures r.world.grid.Valid() && r.world.grid.rows == w.grid.rows && r.world.grid.cols == w.grid.cols
  {
    var s1 := CompleteMovingToSource(t, w);
    var s2 := CompleteCarrying(t, s1.carried, s1.world);
    CompleteReturning(t, s2.carried, s2.world)
  }

  /**
    For `from ≠ to`, a whole task exchanges the two cells and changes no
    other; the monkey ends idle and empty-handed, both cells are unlocked,
    coins do not go down, and the grid's multiset of fruits is unchanged.
   */
  lemma TaskSwapsCells(t: ShuffleTask, w: World)
    requires w.grid.Valid() && w.grid.InBounds(t.from) && w.grid.InBounds(t.to) && t.from != t.to
    ensures var r := PerformTask(t, w);
      && r.world.grid == Swap(w.grid, t.from, t.to)
      && r.phase == Idle && r.carried == None
      && r.world.locks == w.locks - {t.from, t.to}
      && r.world.coins >= w.coins
      && multiset(Cells(r.world.grid)) == multiset(Cells(w.grid))
  {
    var s1 := CompleteMovingToSource(t, w);
    DeliveryPaysOnlyForCombos(t, s1.carried, s1.world);
    TaskMovesTwoCells(t, w);
    CellsOfSwap(w.grid, t.from, t.to);
  }

  /** The grid after a whole task, cell by cell, is the grid with the two ends exchanged. */
  lemma TaskMovesTwoCells(t: ShuffleTask, w: World)
    requires w.grid.Valid() && w.grid.InBounds(t.from) && w.grid.InBounds(t.to) && t.from != t.to
    ensures PerformTask(t, w).world.grid == Swap(w.grid, t.from, t.to)
  {
    var s1 := CompleteMovingToSource(t, w);
    var s2 := CompleteCarrying(t, s1.carried, s1.world);
    var r := CompleteReturning(t, s2.carried, s2.world);
    var sw := Swap(w.grid, t.from, t.to);
    forall q | r.world.grid.InBounds(q)
      ensures Get(r.world.grid, q) == Get(sw, q)
    {
    }
    SameCells(r.world.grid, sw);
  }

  /**
    A task whose two ends coincide destroys the fruit it picks up: the cell
    ends EMPTY. The planners never produce such a task.
   */
  lemma SelfTaskErasesFruit(t: ShuffleTask, w: World)
    requires w.grid.Valid() && w.grid.InBounds(t.from) && t.from == t.to
    ensures var r := PerformTask(t, w);
      && Get(r.world.grid, t.from) == EMPTY
      && forall q :: w.grid.InBounds(q) && q != t.from ==> Get(r.world.grid, q) == Get(w.grid, q)
  {
  }

  // ---------------------------------------------------------------------
  // Conservation of fruit
  // ---------------------------------------------------------------------

  /** How many of fruit `f` there are in the grid and in the monkey's hands. */
  function Holding(g: Grid, carried: Option<Fruit>, f: Fruit): nat {
    SameFruitCount(g, f) + (if carried == Some(f) then 1 else 0)
  }

  /** Grid plus hands hold the same fruits, EMPTY not counted. */
  ghost predicate SameStock(g: Grid, carried: Option<Fruit>, g': Grid, carried': Option<Fruit>) {
    forall f :: f != EMPTY ==> Holding(g, carried, f) == Holding(g', carried', f)
  }

  /** Writing `v` over cell `p` trades one of the cell's fruit for one `v`. */
  lemma CountAfterSet(g: Grid, p: Pos, v: Fruit, f: Fruit)
    requires g.Valid() && g.InBounds(p)
    ensures SameFruitCount(Set(g, p, v), f)
         == SameFruitCount(g, f) - (if Get(g, p) == f then 1 else 0) + (if v == f then 1 else 0)
  {
    CellsOfSet(g, p, v);
    PosOfFlatIndex(g, p);
    CellsAt(g, FlatIndex(g, p));
    var s, i := Cells(g), FlatIndex(g, p);
    assert s == s[..i] + [s[i]] + s[i + 1..];
    assert s[i := v] == s[..i] + [v] + s[i + 1..];
  }

  /** Picking up moves a fruit from the grid into the monkey's empty hands. */
  lemma PickUpKeepsStock(t: ShuffleTask, w: World)
    requires w.grid.Valid() && w.grid.InBounds(t.from)
    ensures var r := CompleteMovingToSource(t, w);
      SameStock(r.world.grid, r.carried, w.grid, None)
  {
    forall f | f != EMPTY {
      CountAfterSet(w.grid, t.from, EMPTY, f);
    }
  }

  /** The delivery exchanges the carried fruit with the one at `to`. */
  lemma DeliveryKeepsStock(t: ShuffleTask, carried: Option<Fruit>, w: World)
    requires w.grid.Valid() && w.grid.InBounds(t.to) && carried.Some?
    ensures var r := CompleteCarrying(t, carried, w);
      SameStock(r.world.grid, r.carried, w.grid, carried)
  {
    forall f | f != EMPTY {
      CountAfterSet(w.grid, t.to, carried.value, f);
    }
  }

  /**
    The return puts the carried fruit back into the grid; nothing is lost
    exactly when the cell it lands on is EMPTY.
   */
  lemma ReturnKeepsStock(t: ShuffleTask, carried: Option<Fruit>, w: World)
    requires w.grid.Valid() && w.grid.InBounds(t.from) && carried.Some?
    ensures var r := CompleteReturning(t, carried, w);
      SameStock(r.world.grid, None, w.grid, carried) <==> Get(w.grid, t.from) == EMPTY
  {
    var r := CompleteReturning(t, carried, w);
    var x := Get(w.grid, t.from);
    forall f | f != EMPTY {
      CountAfterSet(w.grid, t.from, carried.value, f);
    }
    if x != EMPTY {
      assert Holding(r.world.grid, None, x) + 1 == Holding(w.grid, carried, x);
    }
  }

  // ---------------------------------------------------------------------
  // The idle phases
  // ---------------------------------------------------------------------

  /** `IdleState.update`: a roll of 1 starts wandering, 2 a chat, 3 a dance; anything else stays idle. */
  function IdleUpdate(roll: int): (ph: Phase)
    ensures ph == Idle || ph == Wandering(0.0) || ph == Chatting(0.0) || ph == Dancing(0.0)
    ensures ph == Idle <==> roll !in {1, 2, 3}
  {
    if roll == 1 then Wandering(0.0)
    else if roll == 2 then Chatting(0.0)
    else if roll == 3 then Dancing(0.0)
    else Idle
  }

  /** `WanderingState.onProgressComplete`: a roll of 1 ends the walk; otherwise a new target, from progress 0. */
  function CompleteWandering(roll: int): (ph: Phase)
    ensures ph == Idle || ph == Wandering(0.0)
    ensures ph == Idle <==> roll == 1
  {
    if roll == 1 then Idle else Wandering(0.0)
  }

  /** An idle monkey, whatever it rolls, never takes up a task by itself. */
  lemma IdleNeverStartsTask(roll: int)
    ensures !HasTask(IdleUpdate(roll)) && !HasTask(CompleteWandering(roll))
  {
  }

  /**
    `ChattingState.update` / `DancingState.update`: the timer grows by the
    time factor; at the duration the monkey goes idle.
   */
  function TimedUpdate(ph: Phase, timeFactor: real): (r: Phase)
    requires ph.Chatting? || ph.Dancing?
    ensures r == Idle <==> ph.timer + timeFactor >= GameConfig.IdleActivityDuration
    ensures r != Idle ==> r.Chatting? == ph.Chatting? && r.Dancing? == ph.Dancing? && r.timer == ph.timer + timeFactor
  {
    var timer := ph.timer + timeFactor;
    if timer >= GameConfig.IdleActivityDuration then Idle else ph.(timer := timer)
  }

  /** `n` activity updates in a row, stopping once the monkey is idle. */
  function TimedUpdates(ph: Phase, timeFactor: real, n: nat): Phase
    decreases n
  {
    if n == 0 || !(ph.Chatting? || ph.Dancing?) then ph
    else TimedUpdates(TimedUpdate(ph, timeFactor), timeFactor, n - 1)
  }

  lemma {:induction false} ChatCountsUp(timeFactor: real, n: nat)
    requires timeFactor > 0.0 && (n as real) * timeFactor < GameConfig.IdleActivityDuration
    ensures TimedUpdates(Chatting(0.0), timeFactor, n) == Chatting((n as real) * timeFactor)
  {
    if n > 0 {
      var prev := ((n - 1) as real) * timeFactor;
      assert (n as real) * timeFactor == prev + timeFactor;
      assert prev < GameConfig.IdleActivityDuration;
      ChatCountsUp(timeFactor, n - 1);
      TimedUpdatesLast(Chatting(0.0), timeFactor, n - 1);
    }
  }

  lemma {:induction false} TimedUpdatesLast(ph: Phase, timeFactor: real, n: nat)
    ensures TimedUpdates(ph, timeFactor, n + 1)
         == var q := TimedUpdates(ph, timeFactor, n);
            if q.Chatting? || q.Dancing? then TimedUpdate(q, timeFactor) else q
    decreases n
  {
    if n > 0 && (ph.Chatting? || ph.Dancing?) {
      TimedUpdatesLast(TimedUpdate(ph, timeFactor), timeFactor, n - 1);
    }
  }

  /** At time factor 1 a chat lasts exactly 100 updates. */
  lemma ChatLastsOneHundredUpdates()
    ensures TimedUpdates(Chatting(0.0), 1.0, 99) == Chatting(99.0)
    ensures TimedUpdates(Chatting(0.0), 1.0, 100) == Idle
  {
    ChatCountsUp(1.0, 99);
    TimedUpdatesLast(Chatting(0.0), 1.0, 99);
  }
}
