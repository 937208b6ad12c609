/**
  The `SortStrategy` interface as a tagged union of the three planners,
  with the `makeStrategy` factory and one dispatching poll.
 */
module SortStrategy {
  import opened Optional
  import opened Fruits
  import opened GridModel
  import opened Tasks
  import opened Strategies

  /** A planner together with its cursor. */
  datatype Strategy =
    | Bogo
    | Bubble(bubble: BubbleCursor)
    | Insertion(insertion: InsertionCursor)

  /** The algorithm a planner implements. */
  function AlgorithmOf(s: Strategy): SortAlgorithm {
    match s
    case Bogo => BOGO
    case Bubble(_) => BUBBLE
    case Insertion(_) => INSERTION
  }

  /** The planner's cursor is one it can reach, and its dimensions fit inside the grid. */
  predicate StrategyFits(s: Strategy, g: Grid) {
    match s
    case Bogo => g.Valid()
    case Bubble(c) => Covers(g, c.rows, c.cols) && BubbleInv(c)
    case Insertion(c) => Covers(g, c.rows, c.cols) && InsertionInv(c)
  }

  /** The planner's dimensions, when it has any. */
  predicate SizedFor(s: Strategy, rows: nat, cols: nat) {
    match s
    case Bogo => true
    case Bubble(c) => c.rows == rows && c.cols == cols
    case Insertion(c) => c.rows == rows && c.cols == cols
  }

  /**
    `makeStrategy(algorithm, rows, cols)`: a fresh planner of the requested
    kind, sized `rows × cols`, with its initial cursor.
   */
  function MakeStrategy(algorithm: SortAlgorithm, rows: nat, cols: nat): (s: Strategy)
    ensures AlgorithmOf(s) == algorithm
    ensures SizedFor(s, rows, cols)
    ensures s.Bubble? ==> s.bubble.index == 0 && s.bubble.pass == 0
    ensures s.Insertion? ==> s.insertion.sortedIndex == 1 && s.insertion.compareIndex == 1 && !s.insertion.didSwap
    ensures forall g: Grid :: Covers(g, rows, cols) ==> StrategyFits(s, g)
  {
    match algorithm
    case BOGO => Bogo
    case BUBBLE => Bubble(BubbleCursor(rows, cols, 0, 0))
    case INSERTION => Insertion(InsertionCursor(rows, cols, 1, 1, false))
  }

  /**
    `strategy.getNextTask(grid)`: one poll of whichever planner this is.
    `d` supplies the random draws a Bogo poll makes; the other planners
    ignore it.
   */
  function GetNextTask(s: Strategy, g: Grid, d: BogoDraw): (r: Poll<Strategy>)
    requires StrategyFits(s, g)
    requires s.Bogo? ==> DrawFits(g, d)
    ensures StrategyFits(r.next, g)
    ensures AlgorithmOf(r.next) == AlgorithmOf(s)
    ensures SizedFor(s, g.rows, g.cols) ==> SizedFor(r.next, g.rows, g.cols)
    ensures r.task.Some? ==> TaskFits(g, r.task.value)
  {
    match s
    case Bogo => Poll(Bogo, BogoNext(g, d))
    case Bubble(c) =>
      var p := BubbleNext(g, c);
      Poll(Bubble(p.next), p.task)
    case Insertion(c) =>
      var p := InsertionNext(g, c);
      Poll(Insertion(p.next), p.task)
  }

  /** Building a planner twice gives the same fresh planner: the factory keeps no state between calls. */
  lemma MakeStrategyIsFresh(algorithm: SortAlgorithm, rows: nat, cols: nat, s: Strategy)
    requires AlgorithmOf(s) == algorithm && SizedFor(s, rows, cols)
    requires s.Bubble? ==> s.bubble.index == 0 && s.bubble.pass == 0
    requires s.Insertion? ==> s.insertion.sortedIndex == 1 && s.insertion.compareIndex == 1 && !s.insertion.didSwap
    ensures MakeStrategy(algorithm, rows, cols) == s
  {
  }
}
