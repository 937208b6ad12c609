/** What the fold over the monkeys' turns carries from one turn to the next. */
module TickState {
  import opened Fruits
  import opened GameController
  import opened GameInvariant

  /** Monkey `i` and those after it can take their turns with the invariant in force. */
  ghost predicate Ready(game: Game, i: nat, lucks: nat -> Luck) {
    && GameInv(game) && i <= |game.monkeys|
    && forall k :: DrawWithin(game.grid.rows, game.grid.cols, lucks(k).draw)
  }

  /** `r` is what the turns from monkey `i` on make of `game`, which is ready for them. */
  ghost predicate Pending(game: Game, i: nat, delta: real, lucks: nat -> Luck, r: Game) {
    Ready(game, i, lucks) && r == TurnsFrom(game, i, delta, lucks)
  }

  /** As `Pending`, with monkey `i` still to move. */
  ghost predicate Due(game: Game, i: nat, delta: real, lucks: nat -> Luck, r: Game) {
    Pending(game, i, delta, lucks, r) && i < |game.monkeys|
  }

  /** `r` satisfies the invariant and holds the same fruit as `game`. */
  ghost predicate Kept(game: Game, r: Game) {
    GameInv(r) && forall f :: f != EMPTY ==> Stock(r, f) == Stock(game, f)
  }
}

/** The whole tick: the turns of all monkeys, one after another, keep the game invariant. */
module GameTick {
  import opened Fruits
  import opened Strategies
  import opened GameController
  import opened GameInvariant
  import opened TickState

  /** One turn of the fold: its result is pending for the rest, and what the rest keeps, the turn keeps too. */
  lemma TurnStep(game: Game, i: nat, delta: real, lucks: nat -> Luck, r: Game) returns (g1: Game)
    requires Due(game, i, delta, lucks, r)
    ensures Pending(g1, i + 1, delta, lucks, r)
    ensures Kept(g1, r) ==> Kept(game, r)
  {
    g1 := Turn(game, i, delta, lucks(i));
    TurnKeeps(game, i, delta, lucks(i));
    assert TurnThen(game, i, delta, lucks) == TurnsFrom(g1, i + 1, delta, lucks);
  }

  /** The turns from `i` on keep the invariant; `r` names their result. */
  lemma {:induction false} TurnsFromKeep(game: Game, i: nat, delta: real, lucks: nat -> Luck, r: Game)
    requires Pending(game, i, delta, lucks, r)
    ensures Kept(game, r)
    decreases |game.monkeys| - i, 1
  {
    if i < |game.monkeys| {
      TurnThenKeep(game, i, delta, lucks, r);
    }
  }

  /** Monkey `i`'s turn and the turns after it keep the invariant. */
  lemma {:induction false} TurnThenKeep(game: Game, i: nat, delta: real, lucks: nat -> Luck, r: Game)
    requires Due(game, i, delta, lucks, r)
    ensures Kept(game, r)
    decreases |game.monkeys| - i, 0
  {
    var g1 := TurnStep(game, i, delta, lucks, r);
    TurnsFromKeep(g1, i + 1, delta, lucks, r);
  }

  /**
    The headline of the controller: a tick keeps the lock registry equal to
    the cells of the tasks in progress, keeps those tasks apart, and neither
    creates nor destroys fruit (counting what the monkeys carry).
   */
  lemma TickKeepsInvariant(game: Game, frame: FrameTime, lucks: nat -> Luck)
    requires GameInv(game)
    requires forall k :: DrawWithin(game.grid.rows, game.grid.cols, lucks(k).draw)
    ensures var r := Tick(game, frame, lucks);
      && GameInv(r)
      && r.locks == Held(r.monkeys)
      && (forall f :: f != EMPTY ==> Stock(r, f) == Stock(game, f))
  {
    if game.timeFactor != 0.0 {
      var delta := FrameDelta(frame, game.timeFactor);
      var r := Tick(game, frame, lucks);
      TickUnfolds(game, frame, lucks);
      TurnsFromKeep(game, 0, delta, lucks, r);
      assert Kept(game, r);
    }
  }
}
