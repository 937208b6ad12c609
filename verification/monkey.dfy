/**
  A monkey: its algorithm, its planner, its phase and the fruit in its
  hands. `Update` is one frame of `Monkey.update`: progress phases share out
  `speed × delta` progress, completing phases one after another and
  carrying any overflow into the next; the other phases get one `update`.
 */
module Monkeys {
  import opened Optional
  import opened Fruits
  import opened GridModel
  import opened Tasks
  import opened LockManager
  import opened SortStrategy
  import opened MonkeyStates
  import GameConfig

  datatype Monkey = Monkey(algorithm: SortAlgorithm, strategy: Strategy, phase: Phase, carried: Option<Fruit>)

  /** `isIdle()`: any phase but the three task phases. */
  predicate IsIdle(m: Monkey)
    ensures IsIdle(m) <==> !HasTask(m.phase)
  {
    m.phase.Idle? || m.phase.Wandering? || m.phase.Chatting? || m.phase.Dancing?
  }

  /**
    `Monkey(algorithm)`: idle, empty-handed, and with a fresh planner for
    its algorithm sized by the configured `size` in force. The random start
    position is screen geometry and is not modelled.
   */
  function NewMonkey(algorithm: SortAlgorithm, size: GameConfig.Size): (m: Monkey)
    ensures m.algorithm == algorithm && AlgorithmOf(m.strategy) == algorithm
    ensures m.strategy == MakeStrategy(algorithm, size.rows, size.cols)
    ensures IsIdle(m) && m.phase == Idle && m.carried == None
  {
    Monkey(algorithm, MakeStrategy(algorithm, size.rows, size.cols), Idle, None)
  }

  /**
    The `algorithm` setter: the new algorithm with a fresh planner for it,
    sized by the configured `size` in force, even when the value does not
    change; the phase and hands are kept.
   */
  function WithAlgorithm(m: Monkey, algorithm: SortAlgorithm, size: GameConfig.Size): (r: Monkey)
    ensures r.algorithm == algorithm && AlgorithmOf(r.strategy) == algorithm
    ensures r.strategy == MakeStrategy(algorithm, size.rows, size.cols)
    ensures r.phase == m.phase && r.carried == m.carried
  {
    m.(algorithm := algorithm, strategy := MakeStrategy(algorithm, size.rows, size.cols))
  }

  /** `getSpeedPerTick()`: bubble and insertion monkeys move 25 times faster than bogo ones. */
  function SpeedPerTick(algorithm: SortAlgorithm): (speed: real)
    ensures speed > 0.0
    ensures algorithm == BOGO ==> speed == 1.0
    ensures algorithm != BOGO ==> speed == 25.0
  {
    match algorithm
    case BUBBLE => 25.0
    case INSERTION => 25.0
    case BOGO => 1.0
  }

  /** The outcome of `assignTask`: whether it succeeded, the monkey and the lock registry afterwards. */
  datatype Assignment = Assignment(ok: bool, monkey: Monkey, locks: set<Pos>)

  /**
    `assignTask(task)`: lock both cells, all or nothing; on success the
    monkey sets off for the source, on failure nothing changes.
   */
  function AssignTask(m: Monkey, t: ShuffleTask, locks: set<Pos>): (r: Assignment)
    ensures r.ok <==> t.from !in locks && t.to !in locks
    ensures !r.ok ==> r.monkey == m && r.locks == locks
    ensures r.ok ==> r.monkey == m.(phase := MovingToSource(t, 0.0)) && r.locks == locks + {t.from, t.to}
  {
    TryLockPairAllOrNothing(locks, t.from, t.to);
    var l := TryLock(locks, [t.from, t.to]);
    if !l.ok then Assignment(false, m, locks)
    else Assignment(true, m.(phase := MovingToSource(t, 0.0)), l.locks)
  }

  /**
    What the handlers need of a monkey on a grid: the task's cells inside
    the grid, and a fruit in hand while carrying or returning (the source's
    `!!`).
   */
  predicate HandlerReady(m: Monkey, g: Grid) {
    && g.Valid()
    && (HasTask(m.phase) ==> g.InBounds(m.phase.task.from) && g.InBounds(m.phase.task.to))
    && (m.phase.Carrying? || m.phase.Returning? ==> m.carried.Some?)
  }

  /** Between updates, besides: the progress of a progress phase lies in [0, 1). */
  predicate MonkeyInv(m: Monkey, g: Grid) {
    && HandlerReady(m, g)
    && (IsProgressPhase(m.phase) ==> 0.0 <= m.phase.progress < 1.0)
  }

  /** The grid keeps its shape. */
  predicate SameShape(g: Grid, g': Grid) {
    g'.Valid() && g'.rows == g.rows && g'.cols == g.cols
  }

  /** The monkey and world after a handler. */
  datatype Moved = Moved(monkey: Monkey, world: World)

  /**
    `onProgressComplete` of the current progress phase. `roll` is the draw
    of `(1..5).random()` a finished walk makes.
   */
  function Complete(m: Monkey, w: World, roll: int): (r: Moved)
    requires HandlerReady(m, w.grid) && IsProgressPhase(m.phase)
    ensures MonkeyInv(r.monkey, r.world.grid) && SameShape(w.grid, r.world.grid)
    ensures r.monkey.algorithm == m.algorithm && r.monkey.strategy == m.strategy
    ensures r.world.coins >= w.coins
    ensures IsProgressPhase(r.monkey.phase) ==> r.monkey.phase.progress == 0.0
    ensures m.phase.Wandering? ==> r.world == w && r.monkey.carried == m.carried && !HasTask(r.monkey.phase)
    ensures m.phase.MovingToSource? ==> r.monkey.phase == Carrying(m.phase.task, 0.0)
    ensures m.phase.Carrying? ==> r.monkey.phase == Returning(m.phase.task, 0.0)
    ensures m.phase.Returning? ==> r.monkey.phase == Idle && r.monkey.carried == None
  {
    match m.phase
    case Wandering(_) => Moved(m.(phase := CompleteWandering(roll)), w)
    case MovingToSource(t, _) =>
      var o := CompleteMovingToSource(t, w);
      Moved(m.(phase := o.phase, carried := o.carried), o.world)
    case Carrying(t, _) =>
      var o := CompleteCarrying(t, m.carried, w);
      Moved(m.(phase := o.phase, carried := o.carried), o.world)
    case Returning(t, _) =>
      var o := CompleteReturning(t, m.carried, w);
      Moved(m.(phase := o.phase, carried := o.carried), o.world)
  }

  /** The measure of the progress loop: whole units of progress still to hand out. */
  function LoopMeasure(m: Monkey, remaining: real): int {
    if remaining > 0.0 && IsProgressPhase(m.phase) && m.phase.progress >= 0.0 then (remaining + m.phase.progress).Floor + 1 else 0
  }

  /**
    The `while` loop of `Monkey.update`: while progress remains and the
    phase is a progress phase, either finish the phase (spending what it
    still needed, then running its handler with the next roll) or add the
    remainder to its progress.
   */
  function Advance(m: Monkey, w: World, remaining: real, dice: nat -> int, n: nat): (r: Moved)
    requires MonkeyInv(m, w.grid)
    ensures MonkeyInv(r.monkey, r.world.grid) && SameShape(w.grid, r.world.grid)
    ensures r.monkey.algorithm == m.algorithm && r.monkey.strategy == m.strategy
    ensures r.world.coins >= w.coins
    ensures remaining <= 0.0 || !IsProgressPhase(m.phase) ==> r == Moved(m, w)
    decreases LoopMeasure(m, remaining)
  {
    if remaining > 0.0 && IsProgressPhase(m.phase) then
      var needed := 1.0 - m.phase.progress;
      if remaining >= needed then
        var c := Complete(m.(phase := WithProgress(m.phase, 1.0)), w, dice(n));
        MeasureDrops(m, remaining, c.monkey);
        Advance(c.monkey, c.world, remaining - needed, dice, n + 1)
      else
        Moved(m.(phase := WithProgress(m.phase, m.phase.progress + remaining)), w)
    else
      Moved(m, w)
  }

  /** Finishing a phase uses up one whole unit of the loop's measure, whatever phase follows at progress zero. */
  lemma MeasureDrops(m: Monkey, remaining: real, next: Monkey)
    requires IsProgressPhase(m.phase) && 0.0 <= m.phase.progress < 1.0
    requires remaining > 0.0 && remaining >= 1.0 - m.phase.progress
    requires IsProgressPhase(next.phase) ==> next.phase.progress == 0.0
    ensures 0 <= LoopMeasure(next, remaining - (1.0 - m.phase.progress)) < LoopMeasure(m, remaining)
  {
    var x := remaining + m.phase.progress;
    assert (x - 1.0).Floor == x.Floor - 1;
  }

  /**
    `Monkey.update(delta)`: a progress phase gets `speed × delta` progress;
    Idle, Chatting and Dancing get one `update`, which never touches the
    world. `dice` supplies the `(1..5).random()` rolls in order.
   */
  function Update(m: Monkey, w: World, delta: real, timeFactor: real, dice: nat -> int): (r: Moved)
    requires MonkeyInv(m, w.grid)
    ensures MonkeyInv(r.monkey, r.world.grid) && SameShape(w.grid, r.world.grid)
    ensures r.monkey.algorithm == m.algorithm && r.monkey.strategy == m.strategy
    ensures r.world.coins >= w.coins
    ensures !IsProgressPhase(m.phase) ==> r.world == w && r.monkey.carried == m.carried && !HasTask(r.monkey.phase)
  {
    if IsProgressPhase(m.phase) then Advance(m, w, SpeedPerTick(m.algorithm) * delta, dice, 0)
    else if m.phase.Idle? then Moved(m.(phase := IdleUpdate(dice(0))), w)
    else Moved(m.(phase := TimedUpdate(m.phase, timeFactor)), w)
  }

  /** Progress short of finishing the phase is simply added to it. */
  lemma PartialProgress(m: Monkey, w: World, remaining: real, dice: nat -> int, n: nat)
    requires MonkeyInv(m, w.grid) && IsProgressPhase(m.phase)
    requires 0.0 < remaining < 1.0 - m.phase.progress
    ensures Advance(m, w, remaining, dice, n) == Moved(m.(phase := WithProgress(m.phase, m.phase.progress + remaining)), w)
  {
  }

  /**
    Progress enough to finish the phase finishes it, runs its handler on the
    next roll, and hands what is left over to the phase that follows.
   */
  lemma FinishingStep(m: Monkey, w: World, remaining: real, dice: nat -> int, n: nat)
    requires MonkeyInv(m, w.grid) && IsProgressPhase(m.phase)
    requires remaining > 0.0 && remaining >= 1.0 - m.phase.progress
    ensures var c := Complete(m.(phase := WithProgress(m.phase, 1.0)), w, dice(n));
      Advance(m, w, remaining, dice, n) == Advance(c.monkey, c.world, remaining - (1.0 - m.phase.progress), dice, n + 1)
  {
  }

  /**
    A freshly assigned task with at least three units of progress to spend
    runs to the end in one update: the two cells are exchanged, both locks
    are released, the monkey is idle and empty-handed, and the leftover
    progress is dropped.
   */
  lemma {:induction false} WholeTaskInOneUpdate(m: Monkey, w: World, t: ShuffleTask, remaining: real, dice: nat -> int, n: nat)
    requires w.grid.Valid() && w.grid.InBounds(t.from) && w.grid.InBounds(t.to) && t.from != t.to
    requires m.phase == MovingToSource(t, 0.0) && remaining >= 3.0
    ensures var r := Advance(m, w, remaining, dice, n);
      && r.monkey.phase == Idle && r.monkey.carried == None
      && r.world.grid == Swap(w.grid, t.from, t.to)
      && r.world.locks == w.locks - {t.from, t.to}
      && r.world.coins >= w.coins
  {
    var s1 := CompleteMovingToSource(t, w);
    var m1 := m.(phase := Carrying(t, 0.0), carried := s1.carried);
    FinishingStep(m, w, remaining, dice, n);
    assert Complete(m.(phase := WithProgress(m.phase, 1.0)), w, dice(n)) == Moved(m1, s1.world);
    var s2 := CompleteCarrying(t, s1.carried, s1.world);
    var m2 := m1.(phase := Returning(t, 0.0), carried := s2.carried);
    FinishingStep(m1, s1.world, remaining - 1.0, dice, n + 1);
    assert Complete(m1.(phase := WithProgress(m1.phase, 1.0)), s1.world, dice(n + 1)) == Moved(m2, s2.world);
    var s3 := CompleteReturning(t, s2.carried, s2.world);
    var m3 := m2.(phase := Idle, carried := None);
    FinishingStep(m2, s2.world, remaining - 2.0, dice, n + 2);
    assert Complete(m2.(phase := WithProgress(m2.phase, 1.0)), s2.world, dice(n + 2)) == Moved(m3, s3.world);
    assert Advance(m3, s3.world, remaining - 3.0, dice, n + 3) == Moved(m3, s3.world);
    TaskSwapsCells(t, w);
  }
}
