/**
  Sort convergence. One monkey runs a bubble or insertion planner over a
  grid without EMPTY cells, and every task it is handed is carried out
  before the next poll. Carrying out a task exchanges its two cells
  (`MonkeyStates.TaskSwapsCells`). Then finitely many polls leave the grid
  sorted, and a sorted grid gets no further tasks.

  Progress is measured by the potential `Weight`, the sum of `k × rank`
  over the row-major cells. Exchanging a strictly inverted pair of
  neighbours raises it, and it is bounded. A poll without a task moves the
  cursor on: bubble ends a pass, insertion settles one more cell.
 */
module Convergence {
  import opened Optional
  import opened Fruits
  import opened GridModel
  import opened Tasks
  import opened Strategies

  /** Every cell holds a fruit. */
  ghost predicate NoEmpty(g: Grid) {
    g.Valid() && forall q :: g.InBounds(q) ==> Get(g, q) != EMPTY
  }

  /** A planner state next to the grid it works on. */
  datatype Sorting<C> = Sorting(grid: Grid, cursor: C)

  /** The grid once the task of a poll, if any, has been carried out. */
  function Apply(g: Grid, t: Option<ShuffleTask>): (r: Grid)
    requires g.Valid() && (t.Some? ==> TaskFits(g, t.value))
    ensures r.Valid() && r.rows == g.rows && r.cols == g.cols
    ensures multiset(Cells(r)) == multiset(Cells(g))
    ensures NoEmpty(g) ==> NoEmpty(r)
    ensures t.None? ==> r == g
  {
    if t.None? then g
    else
      CellsOfSwap(g, t.value.from, t.value.to);
      Swap(g, t.value.from, t.value.to)
  }

  // ---------------------------------------------------------------------
  // The potential
  // ---------------------------------------------------------------------

  /** The sum of `k × rank(s[k])` over the sequence. */
  function Weight(s: seq<Fruit>): nat {
    if |s| == 0 then 0 else Weight(s[..|s| - 1]) + (|s| - 1) * Rank(s[|s| - 1])
  }

  /** The largest weight a sequence of length `n` can have. */
  function MaxWeight(n: nat): nat {
    if n == 0 then 0 else MaxWeight(n - 1) + (n - 1) * (|ByName| - 1)
  }

  lemma MulAtMost(a: nat, b: nat, k: nat)
    requires b <= k
    ensures a * b <= a * k
  {
  }

  /** The weight never exceeds the bound for its length. */
  lemma {:induction false} WeightBound(s: seq<Fruit>)
    ensures Weight(s) <= MaxWeight(|s|)
  {
    if |s| > 0 {
      WeightBound(s[..|s| - 1]);
      MulAtMost(|s| - 1, Rank(s[|s| - 1]), |ByName| - 1);
    }
  }

  /** Writing `v` at index `k` moves the weight by `k × (rank v - rank s[k])`. */
  lemma {:induction false} WeightUpdate(s: seq<Fruit>, k: int, v: Fruit)
    requires 0 <= k < |s|
    ensures Weight(s[k := v]) + k * Rank(s[k]) == Weight(s) + k * Rank(v)
  {
    var n := |s| - 1;
    var t := s[k := v];
    assert Weight(t) == Weight(t[..n]) + n * Rank(t[n]);
    if k == n {
      assert t[..n] == s[..n];
    } else {
      assert t[..n] == s[..n][k := v];
      WeightUpdate(s[..n], k, v);
    }
  }

  /** Exchanging neighbours `k` and `k + 1` moves the weight by `rank s[k] - rank s[k + 1]`. */
  lemma WeightSwap(s: seq<Fruit>, k: int)
    requires 0 <= k && k + 1 < |s|
    ensures Weight(s[k := s[k + 1]][k + 1 := s[k]]) + Rank(s[k + 1]) == Weight(s) + Rank(s[k])
  {
    var a, b := Rank(s[k]), Rank(s[k + 1]);
    var s1 := s[k := s[k + 1]];
    WeightUpdate(s, k, s[k + 1]);
    WeightUpdate(s1, k + 1, s[k]);
    assert (k + 1) * a == k * a + a && (k + 1) * b == k * b + b;
  }

  /** Carrying out the task of an inverted pair exchanges the pair's two entries of the flattened grid. */
  lemma PairTaskSwapsCells(g: Grid, k: int)
    requires g.Valid() && 0 <= k && k + 1 < g.rows * g.cols
    requires InvertedAt(g, g.cols, k)
    ensures var s := Cells(g);
      && |s| == g.rows * g.cols
      && Cells(Apply(g, Some(PairTask(g, g.cols, k)))) == s[k := s[k + 1]][k + 1 := s[k]]
      && Rank(s[k]) > Rank(s[k + 1])
  {
    var a, b := PosOf(k, g.cols), PosOf(k + 1, g.cols);
    FlatIndexPosOf(g, k);
    FlatIndexPosOf(g, k + 1);
    CellsOfSwap(g, a, b);
    CellsAt(g, k);
    CellsAt(g, k + 1);
  }

  /** Carrying out the task of a strictly inverted pair raises the weight of the grid. */
  lemma SwapRaisesWeight(g: Grid, k: int)
    requires g.Valid() && 0 <= k && k + 1 < g.rows * g.cols
    requires InvertedAt(g, g.cols, k)
    ensures var r := Apply(g, Some(PairTask(g, g.cols, k)));
      Weight(Cells(r)) > Weight(Cells(g))
  {
    PairTaskSwapsCells(g, k);
    WeightSwap(Cells(g), k);
  }

  // ---------------------------------------------------------------------
  // Sortedness and inversions
  // ---------------------------------------------------------------------

  /** On a grid of fruit, a neighbour pair without an inversion is in name order. */
  lemma NotInvertedInOrder(g: Grid, k: int)
    requires NoEmpty(g) && 0 <= k && k + 1 < g.rows * g.cols
    requires !InvertedAt(g, g.cols, k)
    ensures |Cells(g)| == g.rows * g.cols
    ensures Rank(Cells(g)[k]) <= Rank(Cells(g)[k + 1])
  {
    InvertedAtCell(g, g.rows, g.cols, k);
    CellsAt(g, k);
    CellsAt(g, k + 1);
  }

  /** A grid of fruit without any inverted neighbour pair is sorted. */
  lemma NoInversionIsSorted(g: Grid)
    requires NoEmpty(g)
    requires forall j :: 0 <= j && j + 1 < g.rows * g.cols ==> !InvertedAt(g, g.cols, j)
    ensures IsSorted(g)
  {
    CellsLength(g);
    var s := Cells(g);
    forall i | 0 <= i < |s| - 1
      ensures NameLessEq(s[i], s[i + 1])
    {
      NotInvertedInOrder(g, i);
    }
  }

  /** A sorted grid has no inverted neighbour pair. */
  lemma SortedHasNoInversion(g: Grid, k: int)
    requires g.Valid() && IsSorted(g) && 0 <= k && k + 1 < g.rows * g.cols
    ensures !InvertedAt(g, g.cols, k)
  {
    CellsAt(g, k);
    CellsAt(g, k + 1);
  }

  // ---------------------------------------------------------------------
  // Bubble
  // ---------------------------------------------------------------------

  /** A bubble cursor sized for the whole grid, in a reachable state. */
  predicate BubbleFits(g: Grid, c: BubbleCursor) {
    g.Valid() && c.rows == g.rows && c.cols == g.cols && BubbleInv(c)
  }

  /** `n` polls of a bubble planner, each task carried out before the next poll. */
  function BubbleRun(g: Grid, c: BubbleCursor, n: nat): (r: Sorting<BubbleCursor>)
    requires BubbleFits(g, c)
    ensures BubbleFits(r.grid, r.cursor)
    ensures multiset(Cells(r.grid)) == multiset(Cells(g))
    ensures NoEmpty(g) ==> NoEmpty(r.grid)
    decreases n
  {
    if n == 0 then Sorting(g, c)
    else
      var p := BubbleNext(g, c);
      BubbleRun(Apply(g, p.task), p.next, n - 1)
  }

  /** Polls without a task still to come before the cursor starts a pass over the whole grid. */
  function NullBudget(c: BubbleCursor): int {
    if c.index == 0 && c.pass == 0 then 0 else c.rows * c.cols - 1 - c.pass
  }

  /** A bubble planner on a sorted grid yields no task, whatever its cursor. */
  lemma BubbleIdleOnSorted(g: Grid, c: BubbleCursor)
    requires BubbleFits(g, c) && IsSorted(g)
    ensures BubbleNext(g, c).task.None?
  {
    if BubbleNext(g, c).task.Some? {
      BubbleTaskIsFirstInversion(g, c);
      SortedHasNoInversion(g, BubbleNext(g, c).next.index - 1);
    }
  }

  /** A sorted grid stays as it is under any number of bubble polls. */
  lemma BubbleStaysSorted(g: Grid, c: BubbleCursor, n: nat)
    requires BubbleFits(g, c) && IsSorted(g)
    ensures BubbleRun(g, c, n).grid == g
  {
    forall d | BubbleFits(g, d)
      ensures BubbleNext(g, d).task.None?
    {
      BubbleIdleOnSorted(g, d);
    }
    BubbleIdleRun(g, c, n);
  }

  /** A grid on which no bubble poll yields a task is left as it is by any number of polls. */
  lemma {:induction false} BubbleIdleRun(g: Grid, c: BubbleCursor, n: nat)
    requires BubbleFits(g, c)
    requires forall d :: BubbleFits(g, d) ==> BubbleNext(g, d).task.None?
    ensures BubbleRun(g, c, n).grid == g
    decreases n
  {
    if n > 0 {
      BubbleIdleRun(g, BubbleNext(g, c).next, n - 1);
    }
  }

  /** A bubble poll that yields a task raises the weight. */
  lemma BubbleTaskRaises(g: Grid, c: BubbleCursor)
    requires BubbleFits(g, c) && BubbleNext(g, c).task.Some?
    ensures Weight(Cells(Apply(g, BubbleNext(g, c).task))) > Weight(Cells(g))
  {
    BubbleTaskIsFirstInversion(g, c);
    SwapRaisesWeight(g, BubbleNext(g, c).next.index - 1);
  }

  /** On an unsorted grid of fruit, a bubble poll without a task shrinks the budget. */
  lemma BubbleNullShrinks(g: Grid, c: BubbleCursor)
    requires BubbleFits(g, c) && NoEmpty(g) && !IsSorted(g) && BubbleNext(g, c).task.None?
    ensures 0 <= NullBudget(BubbleNext(g, c).next) < NullBudget(c)
  {
    BubbleNoTaskMeansNoInversion(g, c);
    if c.index == 0 && c.pass == 0 {
      NoInversionIsSorted(g);
    }
  }

  /** Whatever its cursor, a bubble planner sorts a grid of fruit in finitely many polls. */
  lemma {:induction false} BubbleConverges(g: Grid, c: BubbleCursor)
    requires BubbleFits(g, c) && NoEmpty(g)
    ensures exists n: nat :: IsSorted(BubbleRun(g, c, n).grid)
    decreases MaxWeight(g.rows * g.cols) - Weight(Cells(g)), NullBudget(c)
  {
    CellsLength(g);
    WeightBound(Cells(g));
    if IsSorted(g) {
      assert BubbleRun(g, c, 0).grid == g;
    } else {
      var p := BubbleNext(g, c);
      var g' := Apply(g, p.task);
      CellsLength(g');
      if p.task.Some? {
        BubbleTaskRaises(g, c);
      } else {
        BubbleNullShrinks(g, c);
      }
      WeightBound(Cells(g'));
      BubbleConverges(g', p.next);
      var n: nat :| IsSorted(BubbleRun(g', p.next, n).grid);
      assert BubbleRun(g, c, n + 1) == BubbleRun(g', p.next, n);
    }
  }

  /** A fresh bubble planner (index 0, pass 0) sorts a grid of fruit, which then stays sorted. */
  lemma BubbleSorts(g: Grid)
    requires NoEmpty(g)
    ensures exists n: nat :: IsSorted(BubbleRun(g, BubbleCursor(g.rows, g.cols, 0, 0), n).grid)
  {
    BubbleConverges(g, BubbleCursor(g.rows, g.cols, 0, 0));
  }

  // ---------------------------------------------------------------------
  // Insertion
  // ---------------------------------------------------------------------

  /** An insertion cursor sized for the whole grid, in a reachable state. */
  predicate InsertionFits(g: Grid, c: InsertionCursor) {
    g.Valid() && c.rows == g.rows && c.cols == g.cols && InsertionInv(c)
  }

  /** `n` polls of an insertion planner, each task carried out before the next poll. */
  function InsertionRun(g: Grid, c: InsertionCursor, n: nat): (r: Sorting<InsertionCursor>)
    requires InsertionFits(g, c)
    ensures InsertionFits(r.grid, r.cursor)
    ensures multiset(Cells(r.grid)) == multiset(Cells(g))
    ensures NoEmpty(g) ==> NoEmpty(r.grid)
    decreases n
  {
    if n == 0 then Sorting(g, c)
    else
      var p := InsertionNext(g, c);
      InsertionRun(Apply(g, p.task), p.next, n - 1)
  }

  /** Ranks never decrease over the pairs of `[0, hi]` that avoid index `e`. */
  ghost predicate SortedAvoiding(s: seq<Fruit>, hi: int, e: int)
    requires hi < |s|
  {
    forall i, j :: 0 <= i < j <= hi && i != e && j != e ==> Rank(s[i]) <= Rank(s[j])
  }

  /**
    The insertion-sort invariant. Once finished, everything is sorted.
    Before that, the cells up to `sortedIndex` are sorted apart from the
    one being inserted, which sits at the effective compare index and is no
    larger than its right neighbour.
   */
  ghost predicate Inserted(s: seq<Fruit>, c: InsertionCursor)
    requires InsertionInv(c)
  {
    if c.sortedIndex >= |s| then SortedByRank(s)
    else
      var e := Effective(c);
      && SortedAvoiding(s, c.sortedIndex, e)
      && (e < c.sortedIndex ==> Rank(s[e]) <= Rank(s[e + 1]))
  }

  /** The fresh cursor (1, 1, no swap) satisfies the invariant. */
  lemma InsertionStartsInserted(s: seq<Fruit>, rows: nat, cols: nat)
    ensures Inserted(s, InsertionCursor(rows, cols, 1, 1, false))
  {
  }

  /** Exchanging `e - 1` and `e` moves the inserted cell one place left and keeps the rest in order. */
  lemma SortedAvoidingAfterSwap(s: seq<Fruit>, hi: int, e: int)
    requires 1 <= e <= hi < |s|
    requires SortedAvoiding(s, hi, e)
    ensures SortedAvoiding(s[e - 1 := s[e]][e := s[e - 1]], hi, e - 1)
  {
    var s' := s[e - 1 := s[e]][e := s[e - 1]];
    forall i, j | 0 <= i < j <= hi && i != e - 1 && j != e - 1
      ensures Rank(s'[i]) <= Rank(s'[j])
    {
      var i0 := if i == e then e - 1 else i;
      var j0 := if j == e then e - 1 else j;
      assert s'[i] == s[i0] && s'[j] == s[j0];
      assert 0 <= i0 < j0 <= hi && i0 != e && j0 != e;
    }
  }

  /** When the inserted cell is in order with both neighbours, the whole of `[0, hi]` is sorted. */
  lemma SettledPrefixSorted(s: seq<Fruit>, hi: int, e: int)
    requires 0 <= e <= hi < |s|
    requires SortedAvoiding(s, hi, e)
    requires e < hi ==> Rank(s[e]) <= Rank(s[e + 1])
    requires e > 0 ==> Rank(s[e - 1]) <= Rank(s[e])
    ensures SortedAvoiding(s, hi, -1)
  {
    forall i, j | 0 <= i < j <= hi
      ensures Rank(s[i]) <= Rank(s[j])
    {
      if i == e {
        if j > e + 1 {
          assert Rank(s[e + 1]) <= Rank(s[j]);
        }
      } else if j == e {
        if i < e - 1 {
          assert Rank(s[i]) <= Rank(s[e - 1]);
        }
      }
    }
  }

  /** A task exchanges the cell being inserted with its left neighbour, keeping the invariant. */
  lemma InsertionTaskKeeps(g: Grid, c: InsertionCursor)
    requires InsertionFits(g, c) && NoEmpty(g) && Inserted(Cells(g), c)
    requires InsertionNext(g, c).task.Some?
    ensures var p := InsertionNext(g, c);
      var g' := Apply(g, p.task);
      Inserted(Cells(g'), p.next) && Weight(Cells(g')) > Weight(Cells(g))
  {
    var p := InsertionNext(g, c);
    var e := Effective(c);
    assert p.task == Some(PairTask(g, g.cols, e - 1)) && p.next == c.(compareIndex := e, didSwap := true);
    PairTaskSwapsCells(g, e - 1);
    SwapRaisesWeight(g, e - 1);
    InsertedAfterSwap(Cells(g), c);
  }

  /** Exchanging the entry being inserted with a larger left neighbour moves it one step left, keeping the invariant. */
  lemma InsertedAfterSwap(s: seq<Fruit>, c: InsertionCursor)
    requires InsertionInv(c) && c.sortedIndex < |s| && Inserted(s, c)
    requires 1 <= Effective(c) && Rank(s[Effective(c) - 1]) > Rank(s[Effective(c)])
    ensures var e := Effective(c);
      Inserted(s[e - 1 := s[e]][e := s[e - 1]], c.(compareIndex := e, didSwap := true))
  {
    SortedAvoidingAfterSwap(s, c.sortedIndex, Effective(c));
  }

  /** A poll without a task settles the cell being inserted, keeping the invariant. */
  lemma InsertionSettleKeeps(g: Grid, c: InsertionCursor)
    requires InsertionFits(g, c) && NoEmpty(g) && Inserted(Cells(g), c)
    requires InsertionNext(g, c).task.None? && c.sortedIndex < g.rows * g.cols
    ensures Inserted(Cells(g), InsertionNext(g, c).next)
  {
    var e := Effective(c);
    var s := Cells(g);
    assert InsertionNext(g, c).next == Advanced(c);
    CellsLength(g);
    if e > 0 {
      NotInvertedInOrder(g, e - 1);
    }
    SettledPrefixSorted(s, c.sortedIndex, e);
    SettledInserted(s, c);
  }

  /** Once everything up to `sortedIndex` is in order, the advanced cursor's invariant holds. */
  lemma SettledInserted(s: seq<Fruit>, c: InsertionCursor)
    requires InsertionInv(c) && c.sortedIndex < |s|
    requires SortedAvoiding(s, c.sortedIndex, -1)
    ensures Inserted(s, Advanced(c))
  {
  }

  /**
    Whatever its state, an insertion planner whose invariant holds finishes
    in finitely many polls on a grid of fruit, and leaves it sorted.
   */
  lemma {:induction false} InsertionConverges(g: Grid, c: InsertionCursor)
    requires InsertionFits(g, c) && NoEmpty(g) && Inserted(Cells(g), c)
    ensures exists n: nat ::
      var r := InsertionRun(g, c, n);
      IsSorted(r.grid) && r.cursor.sortedIndex >= g.rows * g.cols
    decreases MaxWeight(g.rows * g.cols) - Weight(Cells(g)), g.rows * g.cols - c.sortedIndex
  {
    CellsLength(g);
    WeightBound(Cells(g));
    if c.sortedIndex >= g.rows * g.cols {
      assert InsertionRun(g, c, 0) == Sorting(g, c);
    } else {
      var p := InsertionNext(g, c);
      var g' := Apply(g, p.task);
      if p.task.Some? {
        InsertionTaskKeeps(g, c);
      } else {
        InsertionSettleKeeps(g, c);
      }
      CellsLength(g');
      WeightBound(Cells(g'));
      InsertionConverges(g', p.next);
      var n: nat :| var r := InsertionRun(g', p.next, n); IsSorted(r.grid) && r.cursor.sortedIndex >= g.rows * g.cols;
      assert InsertionRun(g, c, n + 1) == InsertionRun(g', p.next, n);
    }
  }

  /** A fresh insertion planner (1, 1, no swap) sorts a grid of fruit and then reports nothing more. */
  lemma InsertionSorts(g: Grid)
    requires NoEmpty(g)
    ensures exists n: nat ::
      var r := InsertionRun(g, InsertionCursor(g.rows, g.cols, 1, 1, false), n);
      IsSorted(r.grid) && r.cursor.sortedIndex >= g.rows * g.cols
  {
    InsertionStartsInserted(Cells(g), g.rows, g.cols);
    InsertionConverges(g, InsertionCursor(g.rows, g.cols, 1, 1, false));
  }
}
