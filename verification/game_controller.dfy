/**
  The controller: the grid, the monkeys in purchase order, and the globals
  they share (the coin balance, the time factor and the lock registry).
  A tick gives every monkey one turn, in list order; the shop sells
  monkeys and whole-troop algorithm upgrades.
 */
module GameController {
  import opened Optional
  import opened Fruits
  import opened GridModel
  import opened Tasks
  import opened Strategies
  import opened SortStrategy
  import opened MonkeyStates
  import opened Monkeys
  import GameConfig

  /** The frame clock handed to `tick`; only `deltaMs` matters to the model. */
  datatype FrameTime = FrameTime(deltaMs: real, currentTimeSec: real)

  datatype Game = Game(grid: Grid, monkeys: seq<Monkey>, locks: set<Pos>, coins: int, timeFactor: real)

  /** The random choices of one monkey's turn: the bogo draw of its poll and the rolls of its update. */
  datatype Luck = Luck(draw: BogoDraw, dice: nat -> int)

  /** Every monkey fits the grid: its handlers can run and its planner stays inside. */
  predicate Wellformed(game: Game) {
    && game.grid.Valid()
    && forall i :: 0 <= i < |game.monkeys| ==>
         MonkeyInv(game.monkeys[i], game.grid) && StrategyFits(game.monkeys[i].strategy, game.grid)
  }

  /**
    A bogo draw comes from `nextInt(rows)` and `nextInt(cols)`, and its
    retry loop for the target ends.
   */
  predicate DrawWithin(rows: nat, cols: nat, d: BogoDraw) {
    && 0 <= d.from.row < rows && 0 <= d.from.col < cols
    && (forall i :: 0 <= i < |d.tos| ==> 0 <= d.tos[i].row < rows && 0 <= d.tos[i].col < cols)
    && exists i :: 0 <= i < |d.tos| && d.tos[i] != d.from
  }

  lemma DrawWithinFits(g: Grid, d: BogoDraw)
    requires g.Valid() && DrawWithin(g.rows, g.cols, d)
    ensures DrawFits(g, d)
  {
  }

  // ---------------------------------------------------------------------
  // One tick
  // ---------------------------------------------------------------------

  /**
    The idle branch of a turn: poll the planner, keep the advanced planner
    whatever happens, and try to take on the task if there is one.
   */
  function Engage(m: Monkey, g: Grid, locks: set<Pos>, d: BogoDraw): (r: Assignment)
    requires MonkeyInv(m, g) && StrategyFits(m.strategy, g) && IsIdle(m)
    requires DrawWithin(g.rows, g.cols, d)
    ensures MonkeyInv(r.monkey, g) && StrategyFits(r.monkey.strategy, g)
    ensures r.monkey.algorithm == m.algorithm && r.monkey.carried == m.carried
    ensures var p := GetNextTask(m.strategy, g, d);
      && r.monkey.strategy == p.next
      && (r.ok <==> p.task.Some? && p.task.value.from !in locks && p.task.value.to !in locks)
      && (r.ok ==> r.monkey.phase == MovingToSource(p.task.value, 0.0) && r.locks == locks + {p.task.value.from, p.task.value.to})
    ensures !r.ok ==> r.locks == locks && r.monkey.phase == m.phase
    ensures r.ok ==> exists t :: (r.monkey.phase == MovingToSource(t, 0.0) && TaskFits(g, t)
      && t.from !in locks && t.to !in locks && r.locks == locks + {t.from, t.to})
  {
    DrawWithinFits(g, d);
    var p := GetNextTask(m.strategy, g, d);
    var m1 := m.(strategy := p.next);
    if p.task.None? then Assignment(false, m1, locks)
    else
      var a := AssignTask(m1, p.task.value, locks);
      assert a.ok ==> a.monkey.phase == MovingToSource(p.task.value, 0.0);
      a
  }

  /** The first half of a turn: an idle monkey polls its planner; a busy one is left as it is. */
  function StartTurn(m: Monkey, g: Grid, locks: set<Pos>, d: BogoDraw): (a: Assignment)
    requires MonkeyInv(m, g) && StrategyFits(m.strategy, g)
    requires DrawWithin(g.rows, g.cols, d)
    ensures MonkeyInv(a.monkey, g) && StrategyFits(a.monkey.strategy, g)
    ensures a.monkey.algorithm == m.algorithm
    ensures !IsIdle(m) ==> a == Assignment(false, m, locks)
  {
    if IsIdle(m) then Engage(m, g, locks, d) else Assignment(false, m, locks)
  }

  /** Monkey `i`'s turn: an idle monkey first polls its planner, then every monkey updates. */
  function Turn(game: Game, i: nat, delta: real, luck: Luck): (r: Game)
    requires Wellformed(game) && i < |game.monkeys|
    requires DrawWithin(game.grid.rows, game.grid.cols, luck.draw)
    ensures Wellformed(r) && SameShape(game.grid, r.grid)
    ensures |r.monkeys| == |game.monkeys| && r.timeFactor == game.timeFactor
    ensures r.monkeys[i].algorithm == game.monkeys[i].algorithm
    ensures forall j :: 0 <= j < |game.monkeys| && j != i ==> r.monkeys[j] == game.monkeys[j]
    ensures r.coins >= game.coins
  {
    var m := game.monkeys[i];
    var a := StartTurn(m, game.grid, game.locks, luck.draw);
    var u := Update(a.monkey, World(game.grid, a.locks, game.coins), delta, game.timeFactor, luck.dice);
    Install(game, i, u)
  }

  /**
    The game once monkey `i` has become `u.monkey` and the shared grid, locks
    and coins are those of `u.world`; a grid of the same shape keeps every other
    monkey well placed.
   */
  function Install(game: Game, i: nat, u: Moved): (r: Game)
    requires Wellformed(game) && i < |game.monkeys|
    requires MonkeyInv(u.monkey, u.world.grid) && SameShape(game.grid, u.world.grid)
    requires u.monkey.algorithm == game.monkeys[i].algorithm && StrategyFits(u.monkey.strategy, u.world.grid)
    requires u.world.coins >= game.coins
    ensures Wellformed(r) && SameShape(game.grid, r.grid)
    ensures |r.monkeys| == |game.monkeys| && r.timeFactor == game.timeFactor
    ensures r.monkeys[i] == u.monkey && r.grid == u.world.grid && r.locks == u.world.locks && r.coins == u.world.coins
    ensures forall j :: 0 <= j < |game.monkeys| && j != i ==> r.monkeys[j] == game.monkeys[j]
  {
    game.(grid := u.world.grid, monkeys := game.monkeys[i := u.monkey], locks := u.world.locks, coins := u.world.coins)
  }

  /** Turns `i`, `i + 1`, … to the end of the list; monkey `k` uses `lucks(k)`. */
  function TurnsFrom(game: Game, i: nat, delta: real, lucks: nat -> Luck): (r: Game)
    requires Wellformed(game) && i <= |game.monkeys|
    requires forall k :: DrawWithin(game.grid.rows, game.grid.cols, lucks(k).draw)
    ensures Wellformed(r) && SameShape(game.grid, r.grid)
    ensures |r.monkeys| == |game.monkeys| && r.timeFactor == game.timeFactor
    ensures forall j :: 0 <= j < |game.monkeys| ==> r.monkeys[j].algorithm == game.monkeys[j].algorithm
    ensures forall j :: 0 <= j < i ==> r.monkeys[j] == game.monkeys[j]
    ensures r.coins >= game.coins
    decreases |game.monkeys| - i, 1
  {
    if i == |game.monkeys| then game
    else TurnThen(game, i, delta, lucks)
  }

  /** Monkey `i` takes its turn, then the monkeys after it take theirs. */
  function TurnThen(game: Game, i: nat, delta: real, lucks: nat -> Luck): (r: Game)
    requires Wellformed(game) && i < |game.monkeys|
    requires forall k :: DrawWithin(game.grid.rows, game.grid.cols, lucks(k).draw)
    ensures Wellformed(r) && SameShape(game.grid, r.grid)
    ensures |r.monkeys| == |game.monkeys| && r.timeFactor == game.timeFactor
    ensures forall j :: 0 <= j < |game.monkeys| ==> r.monkeys[j].algorithm == game.monkeys[j].algorithm
    ensures forall j :: 0 <= j < i ==> r.monkeys[j] == game.monkeys[j]
    ensures r.coins >= game.coins
    decreases |game.monkeys| - i, 0
  {
    TurnsFrom(Turn(game, i, delta, lucks(i)), i + 1, delta, lucks)
  }

  /** The seconds of game time a frame lasts: `deltaMs / 1000 × timeFactor`. */
  function FrameDelta(frame: FrameTime, timeFactor: real): real {
    frame.deltaMs / 1000.0 * timeFactor
  }

  /**
    `tick(frameTime)`: nothing at all while the time factor is zero;
    otherwise every monkey takes its turn, in list order, with
    `delta = deltaMs / 1000 × timeFactor` seconds.
   */
  function Tick(game: Game, frame: FrameTime, lucks: nat -> Luck): (r: Game)
    requires Wellformed(game)
    requires forall k :: DrawWithin(game.grid.rows, game.grid.cols, lucks(k).draw)
    ensures game.timeFactor == 0.0 ==> r == game
    ensures Wellformed(r) && SameShape(game.grid, r.grid)
    ensures |r.monkeys| == |game.monkeys| && r.timeFactor == game.timeFactor
    ensures forall j :: 0 <= j < |game.monkeys| ==> r.monkeys[j].algorithm == game.monkeys[j].algorithm
    ensures r.coins >= game.coins
  {
    if game.timeFactor == 0.0 then game
    else TurnsFrom(game, 0, FrameDelta(frame, game.timeFactor), lucks)
  }

  /** A running tick is the fold of turns from the first monkey. */
  lemma TickUnfolds(game: Game, frame: FrameTime, lucks: nat -> Luck)
    requires Wellformed(game) && game.timeFactor != 0.0
    requires forall k :: DrawWithin(game.grid.rows, game.grid.cols, lucks(k).draw)
    ensures Tick(game, frame, lucks) == TurnsFrom(game, 0, FrameDelta(frame, game.timeFactor), lucks)
  {
  }

  // ---------------------------------------------------------------------
  // Prices
  // ---------------------------------------------------------------------

  function Pow(b: nat, n: nat): (r: nat)
    ensures b >= 1 ==> r >= 1
  {
    if n == 0 then 1 else b * Pow(b, n - 1)
  }

  lemma {:induction false} PowGrows(n: nat)
    ensures Pow(11, n) >= Pow(10, n)
  {
    if n > 0 {
      PowGrows(n - 1);
    }
  }

  /** `x / d` is at least `k` once `x` reaches `k × d`. */
  lemma DivAtLeast(x: nat, d: nat, k: nat)
    requires d > 0 && x >= k * d
    ensures x / d >= k
  {
    var q := x / d;
    assert x == q * d + x % d;
    if q < k {
      MulMonotone(q + 1, k, d);
    }
  }

  lemma MulMonotone(a: nat, b: nat, d: nat)
    requires a <= b
    ensures a * d <= b * d
  {
    assert b * d == a * d + (b - a) * d;
  }

  /** Truncating `1.1 × a / b` gains at least one over truncating `a / b` once `a / b` reaches 10. */
  lemma ElevenTenthsRaise(a: nat, b: nat)
    requires b > 0 && a >= 10 * b
    ensures (11 * a) / (10 * b) > a / b
  {
    var q := a / b;
    DivAtLeast(a, b, 10);
    assert a >= q * b;
    assert 11 * a >= 10 * (q * b) + 10 * b;
    assert 10 * (q * b) + 10 * b == (q + 1) * (10 * b);
    DivAtLeast(11 * a, 10 * b, q + 1);
  }

  /**
    `getNewMonkeyPrice()`: the base cost raised by 10% per monkey owned,
    truncated, computed exactly as `75 × 11ⁿ / 10ⁿ`.
   */
  function NewMonkeyPrice(owned: nat): (price: nat)
    ensures price >= GameConfig.MonkeyBaseCost
  {
    PowGrows(owned);
    DivAtLeast(GameConfig.MonkeyBaseCost * Pow(11, owned), Pow(10, owned), GameConfig.MonkeyBaseCost);
    GameConfig.MonkeyBaseCost * Pow(11, owned) / Pow(10, owned)
  }

  /** Each monkey bought makes the next one dearer. */
  lemma NewMonkeyPriceRises(owned: nat)
    ensures NewMonkeyPrice(owned + 1) > NewMonkeyPrice(owned)
  {
    var a := GameConfig.MonkeyBaseCost * Pow(11, owned);
    var b := Pow(10, owned);
    PowGrows(owned);
    ElevenTenthsRaise(a, b);
    assert GameConfig.MonkeyBaseCost * Pow(11, owned + 1) == 11 * a;
    assert Pow(10, owned + 1) == 10 * b;
  }

  /** The price never falls as the troop grows. */
  lemma {:induction false} NewMonkeyPriceMonotone(owned: nat, more: nat)
    requires owned <= more
    ensures NewMonkeyPrice(owned) <= NewMonkeyPrice(more)
    decreases more - owned
  {
    if owned < more {
      NewMonkeyPriceRises(owned);
      NewMonkeyPriceMonotone(owned + 1, more);
    }
  }

  /** The first prices: 75, 82, 90, 99. */
  lemma FirstMonkeyPrices()
    ensures NewMonkeyPrice(0) == 75 && NewMonkeyPrice(1) == 82
    ensures NewMonkeyPrice(2) == 90 && NewMonkeyPrice(3) == 99
  {
  }

  /** How many monkeys run `algorithm`. */
  function Running(ms: seq<Monkey>, algorithm: SortAlgorithm): (n: nat)
    ensures n <= |ms|
    ensures n == 0 <==> forall i :: 0 <= i < |ms| ==> ms[i].algorithm != algorithm
  {
    if |ms| == 0 then 0
    else Running(ms[..|ms| - 1], algorithm) + (if ms[|ms| - 1].algorithm == algorithm then 1 else 0)
  }

  /**
    `getUpgradeAllFee(startFee, algorithm)`: the start fee raised by 10% per
    monkey owned, whatever it runs, and halved while no monkey runs the
    algorithm yet; truncated, computed exactly.
   */
  function UpgradeAllFee(startFee: nat, ms: seq<Monkey>, algorithm: SortAlgorithm): (fee: nat)
    ensures Running(ms, algorithm) > 0 ==> fee >= startFee
    ensures Running(ms, algorithm) == 0 ==> fee >= startFee / 2
  {
    var n := |ms|;
    var halving := if Running(ms, algorithm) == 0 then 2 else 1;
    FeeAtLeast(startFee, n, halving);
    startFee * Pow(11, n) / (Pow(10, n) * halving)
  }

  /** Raising by 10% per monkey never takes the truncated fee below the start fee over the halving. */
  lemma FeeAtLeast(startFee: nat, n: nat, halving: nat)
    requires halving > 0
    ensures Pow(10, n) * halving > 0
    ensures startFee * Pow(11, n) / (Pow(10, n) * halving) >= startFee / halving
  {
    var k := startFee / halving;
    var p10, p11 := Pow(10, n), Pow(11, n);
    PowGrows(n);
    assert k * halving <= startFee;
    MulMonotone(k * halving, startFee, p10);
    MulMonotone(p10, p11, startFee);
    assert k * (p10 * halving) == (k * halving) * p10;
    DivAtLeast(startFee * p11, p10 * halving, k);
  }

  /** The outcome of a purchase: whether it went through, and the game afterwards. */
  datatype Purchase = Purchase(ok: bool, game: Game)

  /**
    `buyMonkey()`: with enough coins, pay the current price and add a new
    bogo monkey at the end of the list; otherwise change nothing. `size` is
    the configured size in force, which the new monkey's planner is built with.
   */
  function BuyMonkey(game: Game, size: GameConfig.Size): (r: Purchase)
    ensures r.ok <==> game.coins >= NewMonkeyPrice(|game.monkeys|)
    ensures !r.ok ==> r.game == game
    ensures r.ok ==> r.game.coins == game.coins - NewMonkeyPrice(|game.monkeys|) && r.game.coins >= 0
    ensures r.ok ==> r.game.monkeys == game.monkeys + [NewMonkey(BOGO, size)]
    ensures r.game.grid == game.grid && r.game.locks == game.locks && r.game.timeFactor == game.timeFactor
  {
    var cost := NewMonkeyPrice(|game.monkeys|);
    if game.coins >= cost then Purchase(true, game.(coins := game.coins - cost, monkeys := game.monkeys + [NewMonkey(BOGO, size)]))
    else Purchase(false, game)
  }

  /**
    `upgradeAllMonkeysTo(algorithm, startFee)`: with enough coins for the
    fee, pay it once and switch every monkey not already on the algorithm
    (each gets a fresh planner of the configured `size` in force); monkeys
    already on it are untouched. Without enough coins nothing changes.
   */
  function UpgradeAllMonkeysTo(game: Game, algorithm: SortAlgorithm, startFee: nat, size: GameConfig.Size): (r: Game)
    ensures game.coins < UpgradeAllFee(startFee, game.monkeys, algorithm) ==> r == game
    ensures game.coins >= UpgradeAllFee(startFee, game.monkeys, algorithm) ==>
      && r.coins == game.coins - UpgradeAllFee(startFee, game.monkeys, algorithm)
      && r.coins >= 0
      && |r.monkeys| == |game.monkeys|
      && (forall i :: 0 <= i < |r.monkeys| ==> r.monkeys[i].algorithm == algorithm)
      && (forall i :: 0 <= i < |r.monkeys| && game.monkeys[i].algorithm == algorithm ==> r.monkeys[i] == game.monkeys[i])
      && (forall i :: 0 <= i < |r.monkeys| && game.monkeys[i].algorithm != algorithm ==> r.monkeys[i].strategy == MakeStrategy(algorithm, size.rows, size.cols))
      && (forall i :: 0 <= i < |r.monkeys| ==> r.monkeys[i].phase == game.monkeys[i].phase && r.monkeys[i].carried == game.monkeys[i].carried)
    ensures r.grid == game.grid && r.locks == game.locks && r.timeFactor == game.timeFactor
  {
    var fee := UpgradeAllFee(startFee, game.monkeys, algorithm);
    if game.coins < fee then game
    else
      var ms := game.monkeys;
      game.(coins := game.coins - fee,
            monkeys := seq(|ms|, i requires 0 <= i < |ms| => if ms[i].algorithm != algorithm then WithAlgorithm(ms[i], algorithm, size) else ms[i]))
  }

  /** `upgradeAllMonkeysToBubbleSort()`. */
  function UpgradeAllToBubble(game: Game, size: GameConfig.Size): (r: Game)
    ensures game.coins >= UpgradeAllFee(GameConfig.BubbleSortAllStartFee, game.monkeys, BUBBLE) ==>
      forall i :: 0 <= i < |r.monkeys| ==> r.monkeys[i].algorithm == BUBBLE
    ensures game.coins < UpgradeAllFee(GameConfig.BubbleSortAllStartFee, game.monkeys, BUBBLE) ==> r == game
  {
    UpgradeAllMonkeysTo(game, BUBBLE, GameConfig.BubbleSortAllStartFee, size)
  }

  /** `upgradeAllMonkeysToInsertionSort()`. */
  function UpgradeAllToInsertion(game: Game, size: GameConfig.Size): (r: Game)
    ensures game.coins >= UpgradeAllFee(GameConfig.InsertionSortAllStartFee, game.monkeys, INSERTION) ==>
      forall i :: 0 <= i < |r.monkeys| ==> r.monkeys[i].algorithm == INSERTION
    ensures game.coins < UpgradeAllFee(GameConfig.InsertionSortAllStartFee, game.monkeys, INSERTION) ==> r == game
  {
    UpgradeAllMonkeysTo(game, INSERTION, GameConfig.InsertionSortAllStartFee, size)
  }

  /**
    `GameController(rows, cols)`: a rows×cols grid filled with real fruit
    and one bogo monkey. The monkey's planner is sized by the configured
    `size` in force, not by `rows` and `cols`; the controller's default
    arguments are `size.rows` and `size.cols`. The coin balance, the time
    factor and the lock registry are process-wide, so a new controller
    inherits the values in force, `coins`, `timeFactor` and `locks` (at
    start-up `InitialCoins`, `InitialTimeFactor` and nothing locked).
    `draw` stands for `Fruit.random()`.
   */
  function NewGame(rows: nat, cols: nat, size: GameConfig.Size, coins: int, timeFactor: real, locks: set<Pos>,
                   draw: (int, int) -> nat): (game: Game)
    ensures Wellformed(game)
    ensures game.grid.rows == rows && game.grid.cols == cols
    ensures forall q :: game.grid.InBounds(q) ==> Get(game.grid, q) != EMPTY
    ensures game.monkeys == [NewMonkey(BOGO, size)] && IsIdle(game.monkeys[0])
    ensures game.locks == locks && game.coins == coins && game.timeFactor == timeFactor
  {
    Game(NewGrid(rows, cols, draw), [NewMonkey(BOGO, size)], locks, coins, timeFactor)
  }

  /** A bought monkey is a bogo monkey, which fits any grid, whatever size is configured. */
  lemma BuyKeepsWellformed(game: Game, size: GameConfig.Size)
    requires Wellformed(game)
    ensures Wellformed(BuyMonkey(game, size).game)
  {
    var r := BuyMonkey(game, size);
    if r.ok {
      forall i | 0 <= i < |r.game.monkeys|
        ensures MonkeyInv(r.game.monkeys[i], r.game.grid) && StrategyFits(r.game.monkeys[i].strategy, r.game.grid)
      {
        if i < |game.monkeys| {
          assert r.game.monkeys[i] == game.monkeys[i];
        }
      }
    }
  }

  /** Upgrading with a configured size no larger than the grid keeps every monkey fitting it. */
  lemma UpgradeKeepsWellformed(game: Game, algorithm: SortAlgorithm, startFee: nat, size: GameConfig.Size)
    requires Wellformed(game) && size.rows <= game.grid.rows && size.cols <= game.grid.cols
    ensures Wellformed(UpgradeAllMonkeysTo(game, algorithm, startFee, size))
  {
    assert Covers(game.grid, size.rows, size.cols);
  }

  /**
    A second upgrade to the same algorithm changes no monkey, even if the
    configured size changed in between; it only costs coins.
   */
  lemma UpgradeTwiceChangesNoMonkey(game: Game, algorithm: SortAlgorithm, startFee: nat, size: GameConfig.Size, size': GameConfig.Size)
    ensures var once := UpgradeAllMonkeysTo(game, algorithm, startFee, size);
      UpgradeAllMonkeysTo(once, algorithm, startFee, size').monkeys == once.monkeys
  {
  }
}
