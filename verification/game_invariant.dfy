/**
  What every tick keeps true of a game. The lock registry holds exactly the
  two cells of every task in progress, no two tasks share a cell, and the
  grid plus the monkeys' hands hold the same fruit before and after.
 */
module GameInvariant {
  import opened Optional
  import opened Fruits
  import opened GridModel
  import opened Tasks
  import opened Strategies
  import opened SortStrategy
  import opened MonkeyStates
  import opened Monkeys
  import opened GameController
  import GameConfig

  /** The cells a phase keeps locked: both ends of its task, if it has one. */
  function TaskCells(ph: Phase): set<Pos> {
    if HasTask(ph) then {ph.task.from, ph.task.to} else {}
  }

  /** The union of the monkeys' task cells. */
  function Held(ms: seq<Monkey>): (r: set<Pos>)
    ensures forall q :: q in r <==> exists i :: 0 <= i < |ms| && q in TaskCells(ms[i].phase)
  {
    set i, q | 0 <= i < |ms| && q in TaskCells(ms[i].phase) :: q
  }

  /** No cell belongs to two monkeys' tasks. */
  predicate TasksDisjoint(ms: seq<Monkey>) {
    forall i, j :: 0 <= i < |ms| && 0 <= j < |ms| && i != j ==> TaskCells(ms[i].phase) !! TaskCells(ms[j].phase)
  }

  /**
    What a monkey's phase says about the grid and its hands: a task has two
    different ends; while the fruit is away its source cell is EMPTY; and
    the hands are empty outside Carrying and Returning.
   */
  predicate Consistent(m: Monkey, g: Grid) {
    && MonkeyInv(m, g) && StrategyFits(m.strategy, g)
    && (HasTask(m.phase) ==> m.phase.task.from != m.phase.task.to)
    && (m.phase.Carrying? || m.phase.Returning? ==> Get(g, m.phase.task.from) == EMPTY)
    && (!(m.phase.Carrying? || m.phase.Returning?) ==> m.carried == None)
  }

  predicate GameInv(game: Game) {
    && Wellformed(game)
    && (forall i :: 0 <= i < |game.monkeys| ==> Consistent(game.monkeys[i], game.grid))
    && TasksDisjoint(game.monkeys)
    && game.locks == Held(game.monkeys)
  }

  /** The fruit in the monkeys' hands, monkey by monkey. */
  function Hands(ms: seq<Monkey>): (r: seq<Option<Fruit>>)
    ensures |r| == |ms| && forall k :: 0 <= k < |ms| ==> r[k] == ms[k].carried
  {
    seq(|ms|, k requires 0 <= k < |ms| => ms[k].carried)
  }

  /** How many of fruit `f` the game holds, in the grid and in hands. */
  function Stock(game: Game, f: Fruit): nat {
    SameFruitCount(game.grid, f) + multiset(Hands(game.monkeys))[Some(f)]
  }

  function WorldOf(game: Game): World {
    World(game.grid, game.locks, game.coins)
  }

  // ---------------------------------------------------------------------
  // Replacing one monkey
  // ---------------------------------------------------------------------

  /** A monkey stays consistent when no cell of its task changes. */
  lemma Frame(m: Monkey, g: Grid, g': Grid)
    requires Consistent(m, g) && SameShape(g, g')
    requires forall q :: q in TaskCells(m.phase) ==> Get(g', q) == Get(g, q)
    ensures Consistent(m, g')
  {
    if m.phase.Carrying? || m.phase.Returning? {
      assert m.phase.task.from in TaskCells(m.phase);
    }
  }

  /** Outside `cells`, `g'` agrees with `g`. */
  ghost predicate OnlyAt(g: Grid, g': Grid, cells: set<Pos>)
    requires g.Valid() && SameShape(g, g')
  {
    forall q :: g.InBounds(q) && q !in cells ==> Get(g', q) == Get(g, q)
  }

  /**
    Monkey `i` may be replaced, with the grid changing only at its old or
    new task cells, as long as its new task takes no cell another task holds
    and the registry follows its cells.
   */
  lemma Replace(game: Game, i: nat, m': Monkey, g': Grid, locks': set<Pos>)
    requires GameInv(game) && i < |game.monkeys|
    requires Consistent(m', g') && SameShape(game.grid, g')
    requires OnlyAt(game.grid, g', TaskCells(game.monkeys[i].phase) + TaskCells(m'.phase))
    requires TaskCells(m'.phase) !! (game.locks - TaskCells(game.monkeys[i].phase))
    requires locks' == (game.locks - TaskCells(game.monkeys[i].phase)) + TaskCells(m'.phase)
    ensures GameInv(game.(grid := g', monkeys := game.monkeys[i := m'], locks := locks'))
  {
    OthersOutside(game, i);
    ReplaceConsistent(game, i, m', g');
    ReplaceDisjoint(game, i, m');
    ReplaceHeld(game, i, m', locks');
    var ms' := game.monkeys[i := m'];
    assert forall j :: 0 <= j < |ms'| ==> Consistent(ms'[j], g');
  }

  /** Under the invariant, every other monkey's cells are locked and are not monkey `i`'s. */
  lemma OthersOutside(game: Game, i: nat)
    requires GameInv(game) && i < |game.monkeys|
    ensures forall j :: 0 <= j < |game.monkeys| && j != i ==>
      TaskCells(game.monkeys[j].phase) <= game.locks - TaskCells(game.monkeys[i].phase)
  {
  }

  lemma ReplaceConsistent(game: Game, i: nat, m': Monkey, g': Grid)
    requires GameInv(game) && i < |game.monkeys|
    requires Consistent(m', g') && SameShape(game.grid, g')
    requires OnlyAt(game.grid, g', TaskCells(game.monkeys[i].phase) + TaskCells(m'.phase))
    requires TaskCells(m'.phase) !! (game.locks - TaskCells(game.monkeys[i].phase))
    requires forall j :: 0 <= j < |game.monkeys| && j != i ==>
      TaskCells(game.monkeys[j].phase) <= game.locks - TaskCells(game.monkeys[i].phase)
    ensures forall j :: 0 <= j < |game.monkeys| && j != i ==> Consistent(game.monkeys[j], g')
  {
    var ms := game.monkeys;
    forall j | 0 <= j < |ms| && j != i
      ensures Consistent(ms[j], g')
    {
      forall q | q in TaskCells(ms[j].phase)
        ensures Get(g', q) == Get(game.grid, q)
      {
        assert game.grid.InBounds(q);
      }
      Frame(ms[j], game.grid, g');
    }
  }

  lemma ReplaceDisjoint(game: Game, i: nat, m': Monkey)
    requires TasksDisjoint(game.monkeys) && i < |game.monkeys|
    requires TaskCells(m'.phase) !! (game.locks - TaskCells(game.monkeys[i].phase))
    requires forall j :: 0 <= j < |game.monkeys| && j != i ==>
      TaskCells(game.monkeys[j].phase) <= game.locks - TaskCells(game.monkeys[i].phase)
    ensures TasksDisjoint(game.monkeys[i := m'])
  {
  }

  lemma ReplaceHeld(game: Game, i: nat, m': Monkey, locks': set<Pos>)
    requires game.locks == Held(game.monkeys) && i < |game.monkeys|
    requires forall j :: 0 <= j < |game.monkeys| && j != i ==>
      TaskCells(game.monkeys[j].phase) <= game.locks - TaskCells(game.monkeys[i].phase)
    requires locks' == (game.locks - TaskCells(game.monkeys[i].phase)) + TaskCells(m'.phase)
    ensures locks' == Held(game.monkeys[i := m'])
  {
    var ms, ms' := game.monkeys, game.monkeys[i := m'];
    forall q | q in Held(ms')
      ensures q in locks'
    {
      var j :| 0 <= j < |ms'| && q in TaskCells(ms'[j].phase);
      if j != i {
        assert q in TaskCells(ms[j].phase);
      }
    }
    forall q | q in locks'
      ensures q in Held(ms')
    {
      if q in TaskCells(m'.phase) {
        assert q in TaskCells(ms'[i].phase);
      } else {
        assert q in Held(ms);
        var j :| 0 <= j < |ms| && q in TaskCells(ms[j].phase);
        assert q in TaskCells(ms'[j].phase);
      }
    }
  }

  /** Replacing monkey `i` trades its holding for the new one's. */
  lemma StockAfterReplace(game: Game, i: nat, m': Monkey, g': Grid, locks': set<Pos>, f: Fruit)
    requires i < |game.monkeys|
    ensures var r := game.(grid := g', monkeys := game.monkeys[i := m'], locks := locks');
      Stock(r, f) + Holding(game.grid, game.monkeys[i].carried, f) == Stock(game, f) + Holding(g', m'.carried, f)
  {
    var ms := game.monkeys;
    assert Hands(ms[i := m']) == Hands(ms)[i := m'.carried];
  }

  // ---------------------------------------------------------------------
  // One monkey's steps, in isolation
  // ---------------------------------------------------------------------

  /**
    A step of one monkey that only works on its own task: it stays
    consistent, takes on no new cell, writes only to its task's cells,
    releases the cells it lets go of, and keeps its holding of every fruit.
   */
  ghost predicate Local(m: Monkey, w: World, m': Monkey, w': World) {
    && w.grid.Valid()
    && Consistent(m', w'.grid) && SameShape(w.grid, w'.grid)
    && TaskCells(m'.phase) <= TaskCells(m.phase)
    && OnlyAt(w.grid, w'.grid, TaskCells(m.phase))
    && w'.locks == (w.locks - TaskCells(m.phase)) + TaskCells(m'.phase)
    && forall f :: f != EMPTY ==> Holding(w'.grid, m'.carried, f) == Holding(w.grid, m.carried, f)
  }

  lemma LocalRefl(m: Monkey, w: World)
    requires Consistent(m, w.grid) && TaskCells(m.phase) <= w.locks
    ensures Local(m, w, m, w)
  {
  }

  lemma LocalTrans(m: Monkey, w: World, m1: Monkey, w1: World, m2: Monkey, w2: World)
    requires Local(m, w, m1, w1) && Local(m1, w1, m2, w2)
    ensures Local(m, w, m2, w2)
  {
  }

  /** Each completion handler is a local step. */
  lemma CompleteLocal(m: Monkey, w: World, roll: int)
    requires Consistent(m, w.grid) && IsProgressPhase(m.phase) && TaskCells(m.phase) <= w.locks
    ensures var c := Complete(m.(phase := WithProgress(m.phase, 1.0)), w, roll);
      Local(m, w, c.monkey, c.world)
  {
    match m.phase
    case Wandering(_) => WanderLocal(m, w, roll);
    case MovingToSource(t, _) => PickUpLocal(m, w, t);
    case Carrying(t, _) => DeliveryLocal(m, w, t);
    case Returning(t, _) => ReturnLocal(m, w, t);
  }

  lemma WanderLocal(m: Monkey, w: World, roll: int)
    requires Consistent(m, w.grid) && m.phase.Wandering?
    ensures Local(m, w, m.(phase := CompleteWandering(roll)), w)
  {
  }

  lemma PickUpLocal(m: Monkey, w: World, t: ShuffleTask)
    requires Consistent(m, w.grid) && m.phase.MovingToSource? && m.phase.task == t && TaskCells(m.phase) <= w.locks
    ensures var o := CompleteMovingToSource(t, w);
      Local(m, w, m.(phase := o.phase, carried := o.carried), o.world)
  {
    var o := CompleteMovingToSource(t, w);
    PickUpKeepsStock(t, w);
    assert TaskCells(o.phase) == TaskCells(m.phase);
    assert Consistent(m.(phase := o.phase, carried := o.carried), o.world.grid);
  }

  lemma DeliveryLocal(m: Monkey, w: World, t: ShuffleTask)
    requires Consistent(m, w.grid) && m.phase.Carrying? && m.phase.task == t && TaskCells(m.phase) <= w.locks
    ensures var o := CompleteCarrying(t, m.carried, w);
      Local(m, w, m.(phase := o.phase, carried := o.carried), o.world)
  {
    var o := CompleteCarrying(t, m.carried, w);
    DeliveryKeepsStock(t, m.carried, w);
    assert TaskCells(o.phase) == TaskCells(m.phase);
    assert Get(o.world.grid, t.from) == EMPTY;
    assert Consistent(m.(phase := o.phase, carried := o.carried), o.world.grid);
  }

  lemma ReturnLocal(m: Monkey, w: World, t: ShuffleTask)
    requires Consistent(m, w.grid) && m.phase.Returning? && m.phase.task == t
    ensures var o := CompleteReturning(t, m.carried, w);
      Local(m, w, m.(phase := o.phase, carried := o.carried), o.world)
  {
    var o := CompleteReturning(t, m.carried, w);
    ReturnKeepsStock(t, m.carried, w);
    assert TaskCells(o.phase) == {};
    assert o.world.locks == w.locks - TaskCells(m.phase);
  }

  /** The progress loop is a local step. */
  lemma {:induction false} AdvanceLocal(m: Monkey, w: World, remaining: real, dice: nat -> int, n: nat)
    requires Consistent(m, w.grid) && TaskCells(m.phase) <= w.locks
    ensures var r := Advance(m, w, remaining, dice, n);
      Local(m, w, r.monkey, r.world)
    decreases LoopMeasure(m, remaining)
  {
    if remaining > 0.0 && IsProgressPhase(m.phase) {
      var needed := 1.0 - m.phase.progress;
      if remaining >= needed {
        var c := Complete(m.(phase := WithProgress(m.phase, 1.0)), w, dice(n));
        CompleteLocal(m, w, dice(n));
        MeasureDrops(m, remaining, c.monkey);
        AdvanceLocal(c.monkey, c.world, remaining - needed, dice, n + 1);
        FinishingStep(m, w, remaining, dice, n);
        var r := Advance(c.monkey, c.world, remaining - needed, dice, n + 1);
        LocalTrans(m, w, c.monkey, c.world, r.monkey, r.world);
      } else {
        var m' := m.(phase := WithProgress(m.phase, m.phase.progress + remaining));
        assert TaskCells(m'.phase) == TaskCells(m.phase);
      }
    } else {
      LocalRefl(m, w);
    }
  }

  /** `Monkey.update` is a local step. */
  lemma UpdateLocal(m: Monkey, w: World, delta: real, timeFactor: real, dice: nat -> int)
    requires Consistent(m, w.grid) && TaskCells(m.phase) <= w.locks
    ensures var r := Update(m, w, delta, timeFactor, dice);
      Local(m, w, r.monkey, r.world)
  {
    if IsProgressPhase(m.phase) {
      ProgressUpdateLocal(m, w, delta, timeFactor, dice);
    } else {
      ActivityUpdateLocal(m, w, delta, timeFactor, dice);
    }
  }

  /** An update in a progress phase is the progress loop, hence a local step. */
  lemma ProgressUpdateLocal(m: Monkey, w: World, delta: real, timeFactor: real, dice: nat -> int)
    requires Consistent(m, w.grid) && TaskCells(m.phase) <= w.locks && IsProgressPhase(m.phase)
    ensures var r := Update(m, w, delta, timeFactor, dice);
      Local(m, w, r.monkey, r.world)
  {
    assert Update(m, w, delta, timeFactor, dice) == Advance(m, w, SpeedPerTick(m.algorithm) * delta, dice, 0);
    AdvanceLocal(m, w, SpeedPerTick(m.algorithm) * delta, dice, 0);
  }

  /** An update of an idle activity leaves the world alone, hence is a local step. */
  lemma ActivityUpdateLocal(m: Monkey, w: World, delta: real, timeFactor: real, dice: nat -> int)
    requires Consistent(m, w.grid) && TaskCells(m.phase) <= w.locks && !IsProgressPhase(m.phase)
    ensures var r := Update(m, w, delta, timeFactor, dice);
      Local(m, w, r.monkey, r.world)
  {
    var r := Update(m, w, delta, timeFactor, dice);
    IdleLocal(m, w, r.monkey);
  }

  /** An update of an idle phase touches neither the world nor the hands. */
  lemma IdleLocal(m: Monkey, w: World, m': Monkey)
    requires Consistent(m, w.grid) && !HasTask(m.phase) && !HasTask(m'.phase)
    requires MonkeyInv(m', w.grid) && m'.carried == m.carried && m'.strategy == m.strategy
    ensures Local(m, w, m', w)
  {
  }

  /** A local step of monkey `i` keeps the invariant and the stock of every fruit. */
  lemma LocalKeeps(game: Game, i: nat, mv: Moved)
    requires GameInv(game) && i < |game.monkeys|
    requires Local(game.monkeys[i], WorldOf(game), mv.monkey, mv.world)
    requires mv.monkey.algorithm == game.monkeys[i].algorithm && mv.world.coins >= game.coins
    ensures GameInv(Install(game, i, mv))
    ensures forall f :: f != EMPTY ==> Stock(Install(game, i, mv), f) == Stock(game, f)
  {
    Replace(game, i, mv.monkey, mv.world.grid, mv.world.locks);
    forall f | f != EMPTY {
      StockAfterReplace(game, i, mv.monkey, mv.world.grid, mv.world.locks, f);
    }
  }

  // ---------------------------------------------------------------------
  // Turns and ticks
  // ---------------------------------------------------------------------

  /** Engaging an idle monkey keeps the invariant and moves no fruit. */
  lemma EngageKeeps(game: Game, i: nat, d: BogoDraw)
    requires GameInv(game) && i < |game.monkeys| && IsIdle(game.monkeys[i])
    requires DrawWithin(game.grid.rows, game.grid.cols, d)
    ensures var a := Engage(game.monkeys[i], game.grid, game.locks, d);
      var r := game.(monkeys := game.monkeys[i := a.monkey], locks := a.locks);
      GameInv(r) && forall f :: Stock(r, f) == Stock(game, f)
  {
    var m := game.monkeys[i];
    assert Consistent(m, game.grid);
    var a := Engage(m, game.grid, game.locks, d);
    if a.ok {
      var t :| a.monkey.phase == MovingToSource(t, 0.0) && TaskFits(game.grid, t)
        && t.from !in game.locks && t.to !in game.locks && a.locks == game.locks + {t.from, t.to};
      assert TaskCells(a.monkey.phase) == {t.from, t.to};
    }
    Replace(game, i, a.monkey, game.grid, a.locks);
    forall f {
      StockAfterReplace(game, i, a.monkey, game.grid, a.locks, f);
    }
  }

  /** One monkey's turn keeps the invariant and moves no fruit in or out. */
  lemma TurnKeeps(game: Game, i: nat, delta: real, luck: Luck)
    requires GameInv(game) && i < |game.monkeys|
    requires DrawWithin(game.grid.rows, game.grid.cols, luck.draw)
    ensures var r := Turn(game, i, delta, luck);
      GameInv(r) && forall f :: f != EMPTY ==> Stock(r, f) == Stock(game, f)
  {
    var m := game.monkeys[i];
    var a := StartTurn(m, game.grid, game.locks, luck.draw);
    var game1 := game.(monkeys := game.monkeys[i := a.monkey], locks := a.locks);
    if IsIdle(m) {
      EngageKeeps(game, i, luck.draw);
    } else {
      assert game1 == game;
    }
    assert Consistent(game1.monkeys[i], game1.grid);
    assert TaskCells(game1.monkeys[i].phase) <= game1.locks;
    var u := Update(a.monkey, WorldOf(game1), delta, game.timeFactor, luck.dice);
    UpdateLocal(a.monkey, WorldOf(game1), delta, game.timeFactor, luck.dice);
    LocalKeeps(game1, i, u);
    assert Turn(game, i, delta, luck) == Install(game1, i, u);
  }

  /**
    A new game, whose only monkey is idle, satisfies the invariant exactly
    when the lock registry it inherits is empty; stale locks break it.
   */
  lemma NewGameKeepsInvariant(rows: nat, cols: nat, size: GameConfig.Size, coins: int, timeFactor: real, locks: set<Pos>,
                              draw: (int, int) -> nat)
    ensures GameInv(NewGame(rows, cols, size, coins, timeFactor, locks, draw)) <==> locks == {}
  {
    var game := NewGame(rows, cols, size, coins, timeFactor, locks, draw);
    assert Held(game.monkeys) == {};
  }

  /** Buying a monkey keeps the invariant, whatever size is configured. */
  lemma BuyKeepsInvariant(game: Game, size: GameConfig.Size)
    requires GameInv(game)
    ensures GameInv(BuyMonkey(game, size).game)
  {
    var r := BuyMonkey(game, size);
    if r.ok {
      BuyKeepsWellformed(game, size);
      var ms, ms' := game.monkeys, r.game.monkeys;
      assert forall j :: 0 <= j < |ms| ==> ms'[j] == ms[j];
      assert TaskCells(ms'[|ms|].phase) == {};
      assert Held(ms') == Held(ms);
    }
  }

  /** Upgrading with a configured size no larger than the grid keeps the invariant: no phase or hand changes. */
  lemma UpgradeKeepsInvariant(game: Game, algorithm: SortAlgorithm, startFee: nat, size: GameConfig.Size)
    requires GameInv(game) && size.rows <= game.grid.rows && size.cols <= game.grid.cols
    ensures GameInv(UpgradeAllMonkeysTo(game, algorithm, startFee, size))
  {
    UpgradeKeepsWellformed(game, algorithm, startFee, size);
    var r := UpgradeAllMonkeysTo(game, algorithm, startFee, size);
    if game.coins >= UpgradeAllFee(startFee, game.monkeys, algorithm) {
      assert forall j :: 0 <= j < |r.monkeys| ==> TaskCells(r.monkeys[j].phase) == TaskCells(game.monkeys[j].phase);
      assert Held(r.monkeys) == Held(game.monkeys);
    }
  }
}
