/**
  The three incremental sort planners. Each poll (`getNextTask`) yields at
  most one swap task. Bogo draws at random; bubble and insertion are
  deterministic machines over an explicit cursor that survives between
  polls. A cursor addresses cells by flat row-major index `k`, turned into
  `Pos(k / cols, k % cols)` with the planner's own `cols`.
 */
module Strategies {
  import opened Optional
  import opened Fruits
  import opened GridModel
  import opened Tasks

  /** The outcome of one poll: the planner's next cursor and the task, if any. */
  datatype Poll<C> = Poll(next: C, task: Option<ShuffleTask>)

  /**
    The test both deterministic planners apply to a pair of neighbours:
    both hold a fruit and the first sorts strictly after the second. It is
    stated on ranks; `SwappableComparesNames` shows it is the source's
    comparison of names.
   */
  predicate Swappable(a: Fruit, b: Fruit) {
    a != EMPTY && b != EMPTY && Rank(a) > Rank(b)
  }

  /** `Swappable` is `a != EMPTY && b != EMPTY && a.name > b.name`. */
  lemma SwappableComparesNames(a: Fruit, b: Fruit)
    ensures Swappable(a, b) <==> a != EMPTY && b != EMPTY && NameGreater(a, b)
  {
  }

  /** The planner's dimensions fit inside the grid, so every flat index below `rows * cols` is a cell. */
  predicate Covers(g: Grid, rows: nat, cols: nat) {
    g.Valid() && rows <= g.rows && cols <= g.cols
  }

  /** Flat indices `k` and `k + 1` are cells of `g` whose fruits are swappable. */
  predicate InvertedAt(g: Grid, cols: nat, k: int) {
    && g.Valid() && cols > 0 && k >= 0
    && g.InBounds(PosOf(k, cols)) && g.InBounds(PosOf(k + 1, cols))
    && Swappable(Get(g, PosOf(k, cols)), Get(g, PosOf(k + 1, cols)))
  }

  /** Inside the planner's range, `InvertedAt` is exactly the planners' test on the two cells. */
  lemma InvertedAtCell(g: Grid, rows: nat, cols: nat, k: int)
    requires Covers(g, rows, cols) && 0 <= k && k + 1 < rows * cols
    ensures g.InBounds(PosOf(k, cols)) && g.InBounds(PosOf(k + 1, cols))
    ensures InvertedAt(g, cols, k) <==> Swappable(Get(g, PosOf(k, cols)), Get(g, PosOf(k + 1, cols)))
  {
    PosOfBounds(k, rows, cols);
    PosOfBounds(k + 1, rows, cols);
  }

  /** The task for the pair at flat indices `k`, `k + 1`: carry the left fruit to the right. */
  function PairTask(g: Grid, cols: nat, k: int): (t: ShuffleTask)
    requires InvertedAt(g, cols, k)
    ensures TaskFits(g, t)
    ensures t.from == PosOf(k, cols) && t.to == PosOf(k + 1, cols)
  {
    PosOfInjective(k, k + 1, cols);
    ShuffleTask(PosOf(k, cols), PosOf(k + 1, cols), Get(g, PosOf(k, cols)))
  }

  // ---------------------------------------------------------------------
  // BogoSortStrategy
  // ---------------------------------------------------------------------

  /** The random draws of one Bogo poll: the source cell, then the successive target draws. */
  datatype BogoDraw = BogoDraw(from: Pos, tos: seq<Pos>)

  /**
    The draws come from `Random.nextInt(rows)` / `nextInt(cols)`, so they are
    cells; and when the source holds a fruit, the retry loop for the target
    eventually draws a cell other than the source.
   */
  predicate DrawFits(g: Grid, d: BogoDraw) {
    && g.Valid() && g.InBounds(d.from)
    && (forall i :: 0 <= i < |d.tos| ==> g.InBounds(d.tos[i]))
    && (Get(g, d.from) != EMPTY ==> exists i :: 0 <= i < |d.tos| && d.tos[i] != d.from)
  }

  /** The index of the first target draw that differs from the source: where the `do … while` loop stops. */
  function FirstOther(from: Pos, tos: seq<Pos>): (i: nat)
    requires exists i :: 0 <= i < |tos| && tos[i] != from
    ensures i < |tos| && tos[i] != from
    ensures forall j :: 0 <= j < i ==> tos[j] == from
  {
    if tos[0] != from then 0
    else
      assert exists i :: 0 <= i < |tos[1..]| && tos[1..][i] != from by {
        var w :| 0 <= w < |tos| && tos[w] != from;
        assert tos[1..][w - 1] == tos[w];
      }
      1 + FirstOther(from, tos[1..])
  }

  /**
    `BogoSortStrategy.getNextTask`: no task when the drawn source is EMPTY;
    otherwise a task from the source to the first target draw that differs
    from it, carrying the source's fruit.
   */
  function BogoNext(g: Grid, d: BogoDraw): (r: Option<ShuffleTask>)
    requires DrawFits(g, d)
    ensures r.None? <==> Get(g, d.from) == EMPTY
    ensures r.Some? ==> TaskFits(g, r.value) && r.value.from == d.from
    ensures r.Some? ==>
      exists i :: 0 <= i < |d.tos| && d.tos[i] == r.value.to && forall j :: 0 <= j < i ==> d.tos[j] == d.from
  {
    if Get(g, d.from) == EMPTY then None
    else
      var to := d.tos[FirstOther(d.from, d.tos)];
      Some(ShuffleTask(d.from, to, Get(g, d.from)))
  }

  lemma AtLeastTwo(a: nat, b: nat)
    requires a >= 1 && b >= 1 && (a >= 2 || b >= 2)
    ensures a * b >= 2
  {
    if a >= 2 {
      assert a * b == a + (b - 1) * a;
    } else {
      assert a * b == b;
    }
  }

  /** A Bogo poll that can yield a task needs a grid of at least two cells, or its retry loop never ends. */
  lemma BogoNeedsTwoCells(g: Grid, d: BogoDraw)
    requires DrawFits(g, d) && Get(g, d.from) != EMPTY
    ensures g.rows * g.cols >= 2
  {
    var i :| 0 <= i < |d.tos| && d.tos[i] != d.from;
    assert g.InBounds(d.tos[i]);
    AtLeastTwo(g.rows, g.cols);
  }

  // ---------------------------------------------------------------------
  // BubbleSortStrategy
  // ---------------------------------------------------------------------

  /** The bubble planner: its dimensions, `bubbleSortIndex` and `bubbleSortPass`. */
  datatype BubbleCursor = BubbleCursor(rows: nat, cols: nat, index: int, pass: int)

  /** The states a bubble planner can reach from its initial cursor (index 0, pass 0). */
  predicate BubbleInv(c: BubbleCursor) {
    var total := c.rows * c.cols;
    if total >= 2 then 0 <= c.pass < total - 1 && 0 <= c.index <= total - 1 - c.pass
    else c.index == 0 && c.pass == 0
  }

  /**
    `BubbleSortStrategy.getNextTask`: scan the pairs `(k, k + 1)` from the
    cursor's index up to `total - 1 - pass`. The first swappable pair is
    returned, with the index already moved past it. When the scan runs out,
    the index goes back to 0 and the pass goes up by one, wrapping to 0 once
    it reaches `total - 1`, and the poll yields nothing.
   */
  function BubbleNext(g: Grid, c: BubbleCursor): (r: Poll<BubbleCursor>)
    requires Covers(g, c.rows, c.cols) && BubbleInv(c)
    ensures BubbleInv(r.next) && r.next.rows == c.rows && r.next.cols == c.cols
    ensures r.task.Some? ==> TaskFits(g, r.task.value) && r.next.pass == c.pass && c.index < r.next.index
    decreases c.rows * c.cols - c.index
  {
    var total := c.rows * c.cols;
    if c.index < total - 1 - c.pass then
      var k := c.index;
      var next := c.(index := k + 1);
      InvertedAtCell(g, c.rows, c.cols, k);
      if InvertedAt(g, c.cols, k) then Poll(next, Some(PairTask(g, c.cols, k)))
      else BubbleNext(g, next)
    else
      var pass := c.pass + 1;
      Poll(c.(index := 0, pass := if pass >= total - 1 then 0 else pass), None)
  }

  /**
    What a bubble poll that yields a task finds: the first swappable pair at
    or after the cursor's index, with the index landing just past it.
   */
  lemma {:induction false} BubbleTaskIsFirstInversion(g: Grid, c: BubbleCursor)
    requires Covers(g, c.rows, c.cols) && BubbleInv(c)
    requires BubbleNext(g, c).task.Some?
    ensures var r := BubbleNext(g, c);
      && r.next.index <= c.rows * c.cols - 1 - c.pass
      && InvertedAt(g, c.cols, r.next.index - 1)
      && r.task.value == PairTask(g, c.cols, r.next.index - 1)
      && forall j :: c.index <= j < r.next.index - 1 ==> !InvertedAt(g, c.cols, j)
    decreases c.rows * c.cols - c.index
  {
    var k := c.index;
    var next := c.(index := k + 1);
    InvertedAtCell(g, c.rows, c.cols, k);
    if InvertedAt(g, c.cols, k) {
      assert BubbleNext(g, c) == Poll(next, Some(PairTask(g, c.cols, k)));
    } else {
      assert BubbleNext(g, c) == BubbleNext(g, next);
      BubbleTaskIsFirstInversion(g, next);
    }
  }

  /**
    A bubble poll that yields nothing has found no swappable pair from the
    cursor's index up to `total - 1 - pass`, and starts the next pass.
   */
  lemma {:induction false} BubbleNoTaskMeansNoInversion(g: Grid, c: BubbleCursor)
    requires Covers(g, c.rows, c.cols) && BubbleInv(c)
    requires BubbleNext(g, c).task.None?
    ensures var r := BubbleNext(g, c);
      && (forall j :: c.index <= j < c.rows * c.cols - 1 - c.pass ==> !InvertedAt(g, c.cols, j))
      && r.next.index == 0
      && r.next.pass == (if c.pass + 1 >= c.rows * c.cols - 1 then 0 else c.pass + 1)
    decreases c.rows * c.cols - c.index
  {
    var total := c.rows * c.cols;
    if c.index < total - 1 - c.pass {
      var k := c.index;
      var next := c.(index := k + 1);
      InvertedAtCell(g, c.rows, c.cols, k);
      assert BubbleNext(g, c) == BubbleNext(g, next);
      BubbleNoTaskMeansNoInversion(g, next);
    }
  }

  // ---------------------------------------------------------------------
  // InsertionSortStrategy
  // ---------------------------------------------------------------------

  /** The insertion planner: its dimensions, `sortedIndex`, `compareIndex` and `didSwap`. */
  datatype InsertionCursor = InsertionCursor(rows: nat, cols: nat, sortedIndex: int, compareIndex: int, didSwap: bool)

  /** The states an insertion planner can reach from its initial cursor (1, 1, no swap). */
  predicate InsertionInv(c: InsertionCursor) {
    1 <= c.sortedIndex && 0 <= c.compareIndex <= c.sortedIndex && (c.didSwap ==> c.compareIndex >= 1)
  }

  /** The index the next poll compares at: `compareIndex`, one lower after a swap. */
  function Effective(c: InsertionCursor): int {
    if c.didSwap then c.compareIndex - 1 else c.compareIndex
  }

  /** The cursor after the element at `sortedIndex` has found its place. */
  function Advanced(c: InsertionCursor): InsertionCursor {
    c.(sortedIndex := c.sortedIndex + 1, compareIndex := c.sortedIndex + 1, didSwap := false)
  }

  /**
    `InsertionSortStrategy.getNextTask`: once `sortedIndex` reaches the cell
    count, nothing and no change, forever. Otherwise step `compareIndex` back
    after a swap, then compare the pair ending there: an inversion yields a
    task and marks the swap; anything else advances `sortedIndex` and yields
    nothing.
   */
  function InsertionNext(g: Grid, c: InsertionCursor): (r: Poll<InsertionCursor>)
    requires Covers(g, c.rows, c.cols) && InsertionInv(c)
    ensures InsertionInv(r.next) && r.next.rows == c.rows && r.next.cols == c.cols
    ensures r.next.sortedIndex >= c.sortedIndex
    ensures c.sortedIndex >= c.rows * c.cols ==> r.next == c && r.task.None?
    ensures r.task.Some? ==>
      && c.sortedIndex < c.rows * c.cols
      && r.next == c.(compareIndex := Effective(c), didSwap := true)
      && InvertedAt(g, c.cols, Effective(c) - 1)
      && r.task.value == PairTask(g, c.cols, Effective(c) - 1)
    ensures r.task.None? && c.sortedIndex < c.rows * c.cols ==>
      && !InvertedAt(g, c.cols, Effective(c) - 1)
      && r.next == Advanced(c)
    ensures r.task.Some? ==> TaskFits(g, r.task.value)
  {
    var total := c.rows * c.cols;
    if c.sortedIndex >= total then Poll(c, None)
    else
      var c1 := if c.didSwap then c.(compareIndex := c.compareIndex - 1, didSwap := false) else c;
      if c1.compareIndex > 0 then
        var a, b := c1.compareIndex - 1, c1.compareIndex;
        PosOfBounds(a, c.rows, c.cols);
        PosOfBounds(b, c.rows, c.cols);
        var posA, posB := PosOf(a, c.cols), PosOf(b, c.cols);
        if Swappable(Get(g, posA), Get(g, posB)) then
          Poll(c1.(didSwap := true), Some(ShuffleTask(posA, posB, Get(g, posA))))
        else
          Poll(c1.(sortedIndex := c1.sortedIndex + 1, compareIndex := c1.sortedIndex + 1), None)
      else
        Poll(c1.(sortedIndex := c1.sortedIndex + 1, compareIndex := c1.sortedIndex + 1), None)
  }

  /** Once finished, the insertion planner stays finished: every later poll yields nothing and keeps the cursor. */
  lemma {:induction false} InsertionFinishedForever(g: Grid, c: InsertionCursor, n: nat)
    requires Covers(g, c.rows, c.cols) && InsertionInv(c) && c.sortedIndex >= c.rows * c.cols
    ensures InsertionPolls(g, c, n) == c
    decreases n
  {
    if n > 0 {
      InsertionFinishedForever(g, c, n - 1);
    }
  }

  /** The cursor after `n` polls on an unchanging grid. */
  function InsertionPolls(g: Grid, c: InsertionCursor, n: nat): (r: InsertionCursor)
    requires Covers(g, c.rows, c.cols) && InsertionInv(c)
    ensures InsertionInv(r) && r.rows == c.rows && r.cols == c.cols
    ensures r.sortedIndex >= c.sortedIndex
    decreases n
  {
    if n == 0 then c else InsertionPolls(g, InsertionNext(g, c).next, n - 1)
  }

  // ---------------------------------------------------------------------
  // The examples of the planners' tests
  // ---------------------------------------------------------------------

  /** A one-row grid. */
  function Row(fruits: seq<Fruit>): (g: Grid)
    ensures g.Valid() && g.rows == 1 && g.cols == |fruits|
  {
    Grid(1, |fruits|, [fruits])
  }

  /** On CHERRY, BANANA, APPLE both deterministic planners first ask to move the CHERRY one cell right. */
  lemma FirstPollOnReversedRow()
    ensures BubbleNext(Row([CHERRY, BANANA, APPLE]), BubbleCursor(1, 3, 0, 0)).task
         == Some(ShuffleTask(Pos(0, 0), Pos(0, 1), CHERRY))
    ensures InsertionNext(Row([CHERRY, BANANA, APPLE]), InsertionCursor(1, 3, 1, 1, false)).task
         == Some(ShuffleTask(Pos(0, 0), Pos(0, 1), CHERRY))
  {
    assert PosOf(0, 3) == Pos(0, 0) && PosOf(1, 3) == Pos(0, 1);
  }

  /** On APPLE, BANANA, CHERRY the bubble planner finds nothing to do. */
  lemma FirstPollOnSortedRow()
    ensures BubbleNext(Row([APPLE, BANANA, CHERRY]), BubbleCursor(1, 3, 0, 0)).task == None
  {
    assert PosOf(0, 3) == Pos(0, 0) && PosOf(1, 3) == Pos(0, 1) && PosOf(2, 3) == Pos(0, 2);
    var g := Row([APPLE, BANANA, CHERRY]);
    assert BubbleNext(g, BubbleCursor(1, 3, 0, 0)) == BubbleNext(g, BubbleCursor(1, 3, 1, 0));
    assert BubbleNext(g, BubbleCursor(1, 3, 1, 0)) == BubbleNext(g, BubbleCursor(1, 3, 2, 0));
  }
}
