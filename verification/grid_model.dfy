/**
  The fruit grid: a fixed `rows × cols` matrix of fruits with indexed
  access, bulk fill, the row-major sortedness check, combo detection and
  the two counting queries.
 */
module GridModel {
  import opened Fruits

  /** A cell address. Kotlin's `Int` components may be negative; such a position is out of bounds. */
  datatype Pos = Pos(row: int, col: int)

  /** The matrix of cells; `Valid` says it really is `rows × cols`. */
  datatype Grid = Grid(rows: nat, cols: nat, cells: seq<seq<Fruit>>) {

    predicate Valid() {
      |cells| == rows && forall r :: 0 <= r < rows ==> |cells[r]| == cols
    }

    predicate InBounds(p: Pos) {
      0 <= p.row < rows && 0 <= p.col < cols
    }
  }

  function Max(a: int, b: int): int { if a <= b then b else a }

  // ---------------------------------------------------------------------
  // Construction, get, set, fill
  // ---------------------------------------------------------------------

  /**
    A fresh grid, each cell drawn with `Fruit.random()`; `draw(r, c)` stands
    for the random index used for cell (r, c).
   */
  function NewGrid(rows: nat, cols: nat, draw: (int, int) -> nat): (g: Grid)
    ensures g.Valid() && g.rows == rows && g.cols == cols
    ensures forall q :: g.InBounds(q) ==> Get(g, q) != EMPTY
  {
    var g := Grid(rows, cols, seq(rows, r => seq(cols, c => RandomFruit(draw(r, c)))));
    assert forall q :: g.InBounds(q) ==> g.cells[q.row][q.col] == RandomFruit(draw(q.row, q.col));
    g
  }

  /** `get(pos)`; a position out of bounds throws in the source, so it is excluded here. */
  function Get(g: Grid, p: Pos): Fruit
    requires g.Valid() && g.InBounds(p)
  {
    g.cells[p.row][p.col]
  }

  /** `set(pos, fruit)`: afterwards `get(pos)` is `fruit` and every other cell is as before. */
  function Set(g: Grid, p: Pos, f: Fruit): (r: Grid)
    requires g.Valid() && g.InBounds(p)
    ensures r.Valid() && r.rows == g.rows && r.cols == g.cols
    ensures Get(r, p) == f
    ensures forall q :: g.InBounds(q) && q != p ==> Get(r, q) == Get(g, q)
  {
    g.(cells := g.cells[p.row := g.cells[p.row][p.col := f]])
  }

  /** `fill(fruit)`: every cell becomes `fruit`. */
  function Fill(g: Grid, f: Fruit): (r: Grid)
    ensures r.Valid() && r.rows == g.rows && r.cols == g.cols
    ensures forall q :: r.InBounds(q) ==> Get(r, q) == f
  {
    g.(cells := seq(g.rows, _ => seq(g.cols, _ => f)))
  }

  /** Two grids of the same shape that agree on every cell are the same grid. */
  lemma SameCells(a: Grid, b: Grid)
    requires a.Valid() && b.Valid() && a.rows == b.rows && a.cols == b.cols
    requires forall q :: a.InBounds(q) ==> Get(a, q) == Get(b, q)
    ensures a == b
  {
    forall r | 0 <= r < a.rows
      ensures a.cells[r] == b.cells[r]
    {
      forall c | 0 <= c < a.cols
        ensures a.cells[r][c] == b.cells[r][c]
      {
        assert Get(a, Pos(r, c)) == Get(b, Pos(r, c));
      }
    }
  }

  /** Exchange the contents of two cells (the net effect of one monkey task). */
  function Swap(g: Grid, a: Pos, b: Pos): (r: Grid)
    requires g.Valid() && g.InBounds(a) && g.InBounds(b)
    ensures r.Valid() && r.rows == g.rows && r.cols == g.cols
    ensures Get(r, a) == Get(g, b) && Get(r, b) == Get(g, a)
    ensures forall q :: g.InBounds(q) && q != a && q != b ==> Get(r, q) == Get(g, q)
  {
    Set(Set(g, a, Get(g, b)), b, Get(g, a))
  }

  // ---------------------------------------------------------------------
  // Row-major flattening
  // ---------------------------------------------------------------------

  /** `flatten()`: the rows one after the other. */
  function Flatten(rows: seq<seq<Fruit>>): seq<Fruit> {
    if |rows| == 0 then [] else rows[0] + Flatten(rows[1..])
  }

  /** The cells in row-major order. */
  function Cells(g: Grid): seq<Fruit> {
    Flatten(g.cells)
  }

  /** The row-major index of a position. */
  function FlatIndex(g: Grid, p: Pos): int {
    p.row * g.cols + p.col
  }

  /** `Pos(k / cols, k % cols)`: the position the planners use for flat index `k`. */
  function PosOf(k: int, cols: int): Pos
    requires cols > 0
  {
    Pos(k / cols, k % cols)
  }

  lemma {:induction false} FlattenLength(rows: seq<seq<Fruit>>, cols: nat)
    requires forall r :: 0 <= r < |rows| ==> |rows[r]| == cols
    ensures |Flatten(rows)| == |rows| * cols
  {
    if |rows| > 0 {
      FlattenLength(rows[1..], cols);
    }
  }

  lemma {:induction false} FlattenIndex(rows: seq<seq<Fruit>>, cols: nat, r: int, c: int)
    requires forall i :: 0 <= i < |rows| ==> |rows[i]| == cols
    requires 0 <= r < |rows| && 0 <= c < cols
    ensures |Flatten(rows)| == |rows| * cols
    ensures 0 <= r * cols + c < |Flatten(rows)|
    ensures Flatten(rows)[r * cols + c] == rows[r][c]
  {
    FlattenLength(rows, cols);
    if r > 0 {
      FlattenIndex(rows[1..], cols, r - 1, c);
      assert (r - 1) * cols + c + cols == r * cols + c;
    }
  }

  lemma DivModUnique(k: int, d: int, q: int, m: int)
    requires d > 0 && 0 <= m < d && k == q * d + m
    ensures k / d == q && k % d == m
  {
    var q', m' := k / d, k % d;
    assert (q' - q) * d == m - m' by {
      assert k == q' * d + m';
    }
    MulLeq(1, q' - q, d);
    MulLeq(q' - q, -1, d);
  }

  /** Multiplying by a natural number keeps the order. */
  lemma MulLeq(a: int, b: int, d: nat)
    ensures a <= b ==> a * d <= b * d
  {
    assert b * d - a * d == (b - a) * d;
  }

  /** Flat indices and positions are inverse to each other inside the grid. */
  lemma PosOfFlatIndex(g: Grid, p: Pos)
    requires g.InBounds(p)
    ensures 0 <= FlatIndex(g, p) < g.rows * g.cols
    ensures PosOf(FlatIndex(g, p), g.cols) == p
  {
    DivModUnique(FlatIndex(g, p), g.cols, p.row, p.col);
    MulLeq(p.row + 1, g.rows, g.cols);
    assert (p.row + 1) * g.cols == p.row * g.cols + g.cols;
  }

  /** Every flat index below `rows * cols` maps to a position inside a `rows × cols` grid. */
  lemma PosOfBounds(k: int, rows: nat, cols: nat)
    requires 0 <= k < rows * cols
    ensures cols > 0
    ensures 0 <= PosOf(k, cols).row < rows && 0 <= PosOf(k, cols).col < cols
    ensures PosOf(k, cols).row * cols + PosOf(k, cols).col == k
  {
    assert cols > 0;
    var q := k / cols;
    assert q >= rows ==> q * cols >= rows * cols;
  }

  /** Different flat indices name different positions. */
  lemma PosOfInjective(k: int, k': int, cols: nat)
    requires cols > 0 && k != k'
    ensures PosOf(k, cols) != PosOf(k', cols)
  {
    assert k == (k / cols) * cols + k % cols;
    assert k' == (k' / cols) * cols + k' % cols;
  }

  lemma FlatIndexPosOf(g: Grid, k: int)
    requires 0 <= k < g.rows * g.cols
    ensures g.cols > 0
    ensures g.InBounds(PosOf(k, g.cols))
    ensures FlatIndex(g, PosOf(k, g.cols)) == k
  {
    assert g.cols > 0;
    var q := k / g.cols;
    if q >= g.rows {
      assert q * g.cols >= g.rows * g.cols;
    }
  }

  /** The k-th cell of the flattening is the cell at `PosOf(k)`. */
  lemma CellsAt(g: Grid, k: int)
    requires g.Valid() && 0 <= k < g.rows * g.cols
    ensures g.cols > 0 && g.InBounds(PosOf(k, g.cols))
    ensures |Cells(g)| == g.rows * g.cols
    ensures Cells(g)[k] == Get(g, PosOf(k, g.cols))
  {
    FlatIndexPosOf(g, k);
    var p := PosOf(k, g.cols);
    FlattenIndex(g.cells, g.cols, p.row, p.col);
  }

  lemma CellsLength(g: Grid)
    requires g.Valid()
    ensures |Cells(g)| == g.rows * g.cols
  {
    FlattenLength(g.cells, g.cols);
  }

  /** Writing one cell writes one entry of the flattening. */
  lemma CellsOfSet(g: Grid, p: Pos, f: Fruit)
    requires g.Valid() && g.InBounds(p)
    ensures 0 <= FlatIndex(g, p) < |Cells(g)|
    ensures Cells(Set(g, p, f)) == Cells(g)[FlatIndex(g, p) := f]
  {
    var r := Set(g, p, f);
    CellsLength(g);
    CellsLength(r);
    PosOfFlatIndex(g, p);
    var i := FlatIndex(g, p);
    forall k | 0 <= k < |Cells(r)|
      ensures Cells(r)[k] == Cells(g)[i := f][k]
    {
      CellsAt(g, k);
      CellsAt(r, k);
      FlatIndexPosOf(g, k);
    }
  }

  /** Swapping two cells swaps two entries of the flattening and keeps its multiset. */
  lemma CellsOfSwap(g: Grid, a: Pos, b: Pos)
    requires g.Valid() && g.InBounds(a) && g.InBounds(b)
    ensures 0 <= FlatIndex(g, a) < |Cells(g)| && 0 <= FlatIndex(g, b) < |Cells(g)|
    ensures Cells(Swap(g, a, b))
         == Cells(g)[FlatIndex(g, a) := Cells(g)[FlatIndex(g, b)]][FlatIndex(g, b) := Cells(g)[FlatIndex(g, a)]]
    ensures multiset(Cells(Swap(g, a, b))) == multiset(Cells(g))
  {
    PosOfFlatIndex(g, a);
    PosOfFlatIndex(g, b);
    CellsLength(g);
    var i, j := FlatIndex(g, a), FlatIndex(g, b);
    CellsAt(g, i);
    CellsAt(g, j);
    var g1 := Set(g, a, Get(g, b));
    CellsOfSet(g, a, Get(g, b));
    CellsOfSet(g1, b, Get(g, a));
    SwapEntriesKeepsMultiset(Cells(g), i, j);
  }

  lemma SwapEntriesKeepsMultiset(s: seq<Fruit>, i: int, j: int)
    requires 0 <= i < |s| && 0 <= j < |s|
    ensures multiset(s[i := s[j]][j := s[i]]) == multiset(s)
  {
    var s1 := s[i := s[j]];
    assert multiset(s1) == multiset(s) - multiset{s[i]} + multiset{s[j]};
    assert i != j ==> s1[j] == s[j];
  }

  // ---------------------------------------------------------------------
  // isSorted
  // ---------------------------------------------------------------------

  /** Every pair of neighbours compares `<=` by name (`zipWithNext().all { ... }`). */
  predicate NeighboursInOrder(s: seq<Fruit>) {
    forall i :: 0 <= i < |s| - 1 ==> NameLessEq(s[i], s[i + 1])
  }

  /** The reference notion: ranks never decrease along the sequence. */
  ghost predicate SortedByRank(s: seq<Fruit>) {
    forall i, j :: 0 <= i <= j < |s| ==> Rank(s[i]) <= Rank(s[j])
  }

  lemma {:induction false} NeighboursInOrderIsSorted(s: seq<Fruit>)
    ensures NeighboursInOrder(s) <==> SortedByRank(s)
  {
    if NeighboursInOrder(s) && |s| >= 2 {
      var t := s[1..];
      forall i | 0 <= i < |t| - 1
        ensures NameLessEq(t[i], t[i + 1])
      {
        assert t[i] == s[i + 1] && t[i + 1] == s[i + 2];
      }
      NeighboursInOrderIsSorted(t);
      forall i, j | 0 <= i <= j < |s|
        ensures Rank(s[i]) <= Rank(s[j])
      {
        if i > 0 {
          assert s[i] == t[i - 1] && s[j] == t[j - 1];
        } else if j > 0 {
          assert s[j] == t[j - 1] && s[1] == t[0];
          assert NameLessEq(s[0], s[1]);
        }
      }
    }
  }

  /** `isSorted()`: the row-major flattening is non-decreasing by fruit name. */
  function IsSorted(g: Grid): (r: bool)
    ensures r <==> SortedByRank(Cells(g))
  {
    NeighboursInOrderIsSorted(Cells(g));
    NeighboursInOrder(Cells(g))
  }

  /** A filled grid is sorted; in particular so is an all-EMPTY grid. */
  lemma FillIsSorted(g: Grid, f: Fruit)
    ensures IsSorted(Fill(g, f))
    ensures IsSorted(Fill(g, EMPTY))
  {
    forall x: Fruit ensures IsSorted(Fill(g, x)) {
      var r := Fill(g, x);
      CellsLength(r);
      forall k | 0 <= k < |Cells(r)|
        ensures Cells(r)[k] == x
      {
        CellsAt(r, k);
      }
    }
  }

  // ---------------------------------------------------------------------
  // getComboCellsAt
  // ---------------------------------------------------------------------

  datatype Direction = Right | Left | Down | Up

  /** The position `k` steps from `p` along `d`. */
  function Offset(p: Pos, d: Direction, k: int): Pos {
    match d
    case Right => Pos(p.row, p.col + k)
    case Left => Pos(p.row, p.col - k)
    case Down => Pos(p.row + k, p.col)
    case Up => Pos(p.row - k, p.col)
  }

  /**
    The scan of `collectMatches`: how many cells from offset `k` on along `d`
    hold `f` before the first one that is out of bounds or holds another fruit.
   */
  function Reach(g: Grid, p: Pos, d: Direction, f: Fruit, k: nat): (n: nat)
    requires g.Valid() && g.InBounds(p)
    ensures forall j :: k <= j < k + n ==> Holds(g, p, d, f, j)
    ensures !Holds(g, p, d, f, k + n)
    decreases g.rows + g.cols - k
  {
    if Holds(g, p, d, f, k) then 1 + Reach(g, p, d, f, k + 1) else 0
  }

  /** The cell at offset `j` from `p` along `d` is on the grid and holds `f`. */
  predicate Holds(g: Grid, p: Pos, d: Direction, f: Fruit, j: int) {
    g.Valid() && g.InBounds(Offset(p, d, j)) && Get(g, Offset(p, d, j)) == f
  }

  /** `collectMatches(direction)`: `p` (offset 0) followed by the matching cells along `d`. */
  function Matches(g: Grid, p: Pos, d: Direction): seq<Pos>
    requires g.Valid() && g.InBounds(p)
  {
    seq(1 + Reach(g, p, d, Get(g, p), 1), j => Offset(p, d, j))
  }

  /** A row (horizontal) or a column (vertical) through a cell. */
  datatype Axis = Horizontal | Vertical

  function Forward(x: Axis): Direction { if x == Horizontal then Right else Down }
  function Backward(x: Axis): Direction { if x == Horizontal then Left else Up }

  /** The coordinate that changes along the axis. */
  function Along(x: Axis, q: Pos): int { if x == Horizontal then q.col else q.row }

  /** The coordinate that stays fixed along the axis. */
  function Across(x: Axis, q: Pos): int { if x == Horizontal then q.row else q.col }

  /**
    The run through `p` on one axis, as the source builds it: the forward
    matches, then the backward matches without their repeated `p`.
   */
  function Run(g: Grid, p: Pos, x: Axis): seq<Pos>
    requires g.Valid() && g.InBounds(p)
  {
    Matches(g, p, Forward(x)) + Matches(g, p, Backward(x))[1..]
  }

  /** The positions of a run, as a set. */
  function Members(run: seq<Pos>): set<Pos> {
    set q | q in run
  }

  /**
    `getComboCellsAt(pos)`: nothing for an EMPTY cell; otherwise the union of
    the horizontal run and the vertical run through `p`, each only when it
    is at least 3 long. The source returns the union as a list without
    repetitions, which is modelled as a set.
   */
  function ComboCellsAt(g: Grid, p: Pos): (r: set<Pos>)
    requires g.Valid() && g.InBounds(p)
    ensures Get(g, p) == EMPTY ==> r == {}
    ensures forall q :: q in r ==> g.InBounds(q) && Get(g, q) == Get(g, p) && (q.row == p.row || q.col == p.col)
    ensures r != {} ==> p in r
  {
    if Get(g, p) == EMPTY then {}
    else
      RunOnLine(g, p, Horizontal);
      RunOnLine(g, p, Vertical);
      var horizontal := Run(g, p, Horizontal);
      var vertical := Run(g, p, Vertical);
      (if |horizontal| >= 3 then Members(horizontal) else {})
      + (if |vertical| >= 3 then Members(vertical) else {})
  }

  /** Length of the run through `p` on an axis: backward + self + forward. */
  function RunLength(g: Grid, p: Pos, x: Axis): nat
    requires g.Valid() && g.InBounds(p)
  {
    1 + Reach(g, p, Forward(x), Get(g, p), 1) + Reach(g, p, Backward(x), Get(g, p), 1)
  }

  /** The cells 1..t steps from `p` along `d` are in bounds and hold `p`'s fruit. */
  ghost predicate Clear(g: Grid, p: Pos, d: Direction, t: int)
    requires g.Valid() && g.InBounds(p)
  {
    forall s :: 1 <= s <= t ==> Holds(g, p, d, Get(g, p), s)
  }

  /** `q` is on `p`'s line along the axis and every cell from `p` to `q` holds `p`'s fruit. */
  ghost predicate Linked(g: Grid, p: Pos, x: Axis, q: Pos)
    requires g.Valid() && g.InBounds(p)
  {
    && Across(x, q) == Across(x, p)
    && if Along(x, q) >= Along(x, p) then Clear(g, p, Forward(x), Along(x, q) - Along(x, p))
       else Clear(g, p, Backward(x), Along(x, p) - Along(x, q))
  }

  /** The scan stops exactly where the clear stretch ends. */
  lemma ReachIsMaximal(g: Grid, p: Pos, d: Direction, t: int)
    requires g.Valid() && g.InBounds(p)
    ensures Clear(g, p, d, t) <==> t <= Reach(g, p, d, Get(g, p), 1)
  {
  }

  lemma RunIndex(g: Grid, p: Pos, x: Axis)
    requires g.Valid() && g.InBounds(p)
    ensures |Run(g, p, x)| == RunLength(g, p, x)
    ensures forall t :: 0 <= t <= Reach(g, p, Forward(x), Get(g, p), 1) ==> Run(g, p, x)[t] == Offset(p, Forward(x), t)
    ensures forall t :: 1 <= t <= Reach(g, p, Backward(x), Get(g, p), 1) ==>
      Run(g, p, x)[Reach(g, p, Forward(x), Get(g, p), 1) + t] == Offset(p, Backward(x), t)
  {
  }

  lemma OffsetCoordinates(p: Pos, x: Axis, t: int)
    ensures Across(x, Offset(p, Forward(x), t)) == Across(x, p)
    ensures Along(x, Offset(p, Forward(x), t)) == Along(x, p) + t
    ensures Across(x, Offset(p, Backward(x), t)) == Across(x, p)
    ensures Along(x, Offset(p, Backward(x), t)) == Along(x, p) - t
  {
  }

  lemma SameCoordinates(x: Axis, q: Pos, q': Pos)
    requires Across(x, q) == Across(x, q') && Along(x, q) == Along(x, q')
    ensures q == q'
  {
  }

  /** The `t`-th forward match is in bounds, holds `p`'s fruit and is linked to `p`. */
  lemma ForwardMatchIsLinked(g: Grid, p: Pos, x: Axis, t: int)
    requires g.Valid() && g.InBounds(p)
    requires 0 <= t <= Reach(g, p, Forward(x), Get(g, p), 1)
    ensures g.InBounds(Offset(p, Forward(x), t)) && Get(g, Offset(p, Forward(x), t)) == Get(g, p)
    ensures Linked(g, p, x, Offset(p, Forward(x), t))
  {
    OffsetCoordinates(p, x, t);
    ReachIsMaximal(g, p, Forward(x), t);
    assert t == 0 ==> Offset(p, Forward(x), t) == p;
    assert t >= 1 ==> Holds(g, p, Forward(x), Get(g, p), t);
  }

  /** The `t`-th backward match is in bounds, holds `p`'s fruit and is linked to `p`. */
  lemma BackwardMatchIsLinked(g: Grid, p: Pos, x: Axis, t: int)
    requires g.Valid() && g.InBounds(p)
    requires 1 <= t <= Reach(g, p, Backward(x), Get(g, p), 1)
    ensures g.InBounds(Offset(p, Backward(x), t)) && Get(g, Offset(p, Backward(x), t)) == Get(g, p)
    ensures Linked(g, p, x, Offset(p, Backward(x), t))
  {
    OffsetCoordinates(p, x, t);
    ReachIsMaximal(g, p, Backward(x), t);
    assert Holds(g, p, Backward(x), Get(g, p), t);
  }

  /** Every entry of the run is in bounds, holds `p`'s fruit and is linked to `p`. */
  lemma RunEntryIsLinked(g: Grid, p: Pos, x: Axis, i: int)
    requires g.Valid() && g.InBounds(p)
    requires 0 <= i < |Run(g, p, x)|
    ensures g.InBounds(Run(g, p, x)[i]) && Get(g, Run(g, p, x)[i]) == Get(g, p)
    ensures Linked(g, p, x, Run(g, p, x)[i])
  {
    var nF := Reach(g, p, Forward(x), Get(g, p), 1);
    RunIndex(g, p, x);
    if i <= nF {
      ForwardMatchIsLinked(g, p, x, i);
    } else {
      BackwardMatchIsLinked(g, p, x, i - nF);
    }
  }

  /** Every cell linked to `p` is an entry of the run. */
  lemma LinkedIsRunEntry(g: Grid, p: Pos, x: Axis, q: Pos)
    requires g.Valid() && g.InBounds(p)
    requires Linked(g, p, x, q)
    ensures q in Run(g, p, x)
  {
    var nF := Reach(g, p, Forward(x), Get(g, p), 1);
    RunIndex(g, p, x);
    if Along(x, q) >= Along(x, p) {
      var t := Along(x, q) - Along(x, p);
      ReachIsMaximal(g, p, Forward(x), t);
      OffsetCoordinates(p, x, t);
      SameCoordinates(x, q, Offset(p, Forward(x), t));
      assert Run(g, p, x)[t] == q;
    } else {
      var t := Along(x, p) - Along(x, q);
      ReachIsMaximal(g, p, Backward(x), t);
      OffsetCoordinates(p, x, t);
      SameCoordinates(x, q, Offset(p, Backward(x), t));
      assert Run(g, p, x)[nF + t] == q;
    }
  }

  /** A run starts at `p` and stays on `p`'s line, inside the grid, on `p`'s fruit. */
  lemma RunOnLine(g: Grid, p: Pos, x: Axis)
    requires g.Valid() && g.InBounds(p)
    ensures p in Members(Run(g, p, x))
    ensures forall q :: q in Members(Run(g, p, x)) ==>
      g.InBounds(q) && Get(g, q) == Get(g, p) && Across(x, q) == Across(x, p)
  {
    RunIndex(g, p, x);
    assert Run(g, p, x)[0] == p;
    forall q | q in Members(Run(g, p, x))
      ensures g.InBounds(q) && Get(g, q) == Get(g, p) && Across(x, q) == Across(x, p)
    {
      RunMembers(g, p, x, q);
    }
  }

  /** The run through `p` is exactly the set of cells linked to `p` on that axis. */
  lemma RunMembers(g: Grid, p: Pos, x: Axis, q: Pos)
    requires g.Valid() && g.InBounds(p)
    ensures q in Run(g, p, x) <==> Linked(g, p, x, q)
    ensures q in Run(g, p, x) ==> g.InBounds(q) && Get(g, q) == Get(g, p) && Across(x, q) == Across(x, p)
  {
    if q in Run(g, p, x) {
      var i :| 0 <= i < |Run(g, p, x)| && Run(g, p, x)[i] == q;
      RunEntryIsLinked(g, p, x, i);
    }
    if Linked(g, p, x, q) {
      LinkedIsRunEntry(g, p, x, q);
    }
  }

  /** Where the `i`-th run entry sits along the axis: forward entries climb, backward entries descend. */
  lemma RunEntryAlong(g: Grid, p: Pos, x: Axis, i: int)
    requires g.Valid() && g.InBounds(p)
    requires 0 <= i < |Run(g, p, x)|
    ensures var nF := Reach(g, p, Forward(x), Get(g, p), 1);
      Along(x, Run(g, p, x)[i]) == if i <= nF then Along(x, p) + i else Along(x, p) - (i - nF)
  {
    var nF := Reach(g, p, Forward(x), Get(g, p), 1);
    RunIndex(g, p, x);
    if i <= nF {
      assert Run(g, p, x)[i] == Offset(p, Forward(x), i);
      OffsetCoordinates(p, x, i);
    } else {
      assert Run(g, p, x)[nF + (i - nF)] == Offset(p, Backward(x), i - nF);
      OffsetCoordinates(p, x, i - nF);
    }
  }

  lemma RunIsDistinct(g: Grid, p: Pos, x: Axis)
    requires g.Valid() && g.InBounds(p)
    ensures forall i, j :: 0 <= i < j < |Run(g, p, x)| ==> Run(g, p, x)[i] != Run(g, p, x)[j]
  {
    forall i, j | 0 <= i < j < |Run(g, p, x)|
      ensures Run(g, p, x)[i] != Run(g, p, x)[j]
    {
      RunEntryAlong(g, p, x, i);
      RunEntryAlong(g, p, x, j);
    }
  }

  /**
    A cell belongs to the combo at `p` exactly when `p` holds a fruit and the
    cell is linked to `p` along a row run of length ≥ 3 or a column run of
    length ≥ 3.
   */
  lemma ComboMembership(g: Grid, p: Pos, q: Pos)
    requires g.Valid() && g.InBounds(p)
    ensures q in ComboCellsAt(g, p) <==>
      Get(g, p) != EMPTY &&
      ((RunLength(g, p, Horizontal) >= 3 && Linked(g, p, Horizontal, q))
       || (RunLength(g, p, Vertical) >= 3 && Linked(g, p, Vertical, q)))
  {
    RunIndex(g, p, Horizontal);
    RunIndex(g, p, Vertical);
    RunMembers(g, p, Horizontal, q);
    RunMembers(g, p, Vertical, q);
  }

  lemma {:induction false} DistinctMembers(run: seq<Pos>)
    requires forall i, j :: 0 <= i < j < |run| ==> run[i] != run[j]
    ensures |Members(run)| == |run|
  {
    if |run| > 0 {
      var rest := run[1..];
      DistinctMembers(rest);
      assert Members(run) == {run[0]} + Members(rest);
      assert run[0] !in Members(rest);
    }
  }

  /**
    The size of the combo: each run of length ≥ 3 contributes its length,
    and when both do, `p` is counted once. So a combo is empty or has at
    least 3 cells.
   */
  lemma ComboSize(g: Grid, p: Pos)
    requires g.Valid() && g.InBounds(p) && Get(g, p) != EMPTY
    ensures var h, v := RunLength(g, p, Horizontal), RunLength(g, p, Vertical);
      |ComboCellsAt(g, p)|
      == (if h >= 3 then h else 0) + (if v >= 3 then v else 0) - (if h >= 3 && v >= 3 then 1 else 0)
    ensures ComboCellsAt(g, p) == {} || |ComboCellsAt(g, p)| >= 3
  {
    RunIndex(g, p, Horizontal);
    RunIndex(g, p, Vertical);
    RunIsDistinct(g, p, Horizontal);
    RunIsDistinct(g, p, Vertical);
    var hs, vs := Members(Run(g, p, Horizontal)), Members(Run(g, p, Vertical));
    DistinctMembers(Run(g, p, Horizontal));
    DistinctMembers(Run(g, p, Vertical));
    assert hs * vs == {p} by {
      assert Run(g, p, Horizontal)[0] == p && Run(g, p, Vertical)[0] == p;
      forall q | q in hs * vs ensures q == p {
        RunMembers(g, p, Horizontal, q);
        RunMembers(g, p, Vertical, q);
      }
    }
  }

  /** A fruit with no equal neighbour in any of the four directions forms no combo. */
  lemma LoneFruitHasNoCombo(g: Grid, p: Pos)
    requires g.Valid() && g.InBounds(p)
    requires forall d: Direction :: !(g.InBounds(Offset(p, d, 1)) && Get(g, Offset(p, d, 1)) == Get(g, p))
    ensures ComboCellsAt(g, p) == {}
  {
    if Get(g, p) != EMPTY {
      ComboSize(g, p);
      assert Reach(g, p, Right, Get(g, p), 1) == 0 && Reach(g, p, Left, Get(g, p), 1) == 0;
      assert Reach(g, p, Down, Get(g, p), 1) == 0 && Reach(g, p, Up, Get(g, p), 1) == 0;
    }
  }

  // ---------------------------------------------------------------------
  // Counting queries
  // ---------------------------------------------------------------------

  /** `row.count { it == fruit }`. */
  function CountInRow(row: seq<Fruit>, f: Fruit): (n: nat)
    ensures n == multiset(row)[f]
  {
    if |row| == 0 then 0
    else
      assert row == [row[0]] + row[1..];
      (if row[0] == f then 1 else 0) + CountInRow(row[1..], f)
  }

  /** `sumOf` the per-row counts. */
  function CountInRows(rows: seq<seq<Fruit>>, f: Fruit): (n: nat)
    ensures n == multiset(Flatten(rows))[f]
  {
    if |rows| == 0 then 0 else CountInRow(rows[0], f) + CountInRows(rows[1..], f)
  }

  /** `getSameFruitCount(fruit)`: the number of cells holding `fruit`. */
  function SameFruitCount(g: Grid, f: Fruit): (n: nat)
    ensures n == multiset(Cells(g))[f]
  {
    CountInRows(g.cells, f)
  }

  /** Positions `i .. i+len-1` of `s` all hold `f`. */
  ghost predicate RunOf(s: seq<Fruit>, f: Fruit, i: int, len: int) {
    0 <= i && 0 <= len && i + len <= |s| && forall k :: i <= k < i + len ==> s[k] == f
  }

  /** `n` is the length of a longest run of `f` in `s`. */
  ghost predicate IsLongestRun(s: seq<Fruit>, f: Fruit, n: nat) {
    (exists i :: RunOf(s, f, i, n)) && forall i, len :: RunOf(s, f, i, len) ==> len <= n
  }

  /**
    `getSameFruitNeighborCount(fruit)`: the longest streak of `fruit` in the
    row-major flattening, which runs on from the end of one row into the
    start of the next.
   */
  method SameFruitNeighborCount(g: Grid, f: Fruit) returns (n: nat)
    ensures IsLongestRun(Cells(g), f, n)
  {
    var flat := Cells(g);
    var maxCount: nat := 0;
    var count: nat := 0;
    var k := 0;
    assert RunOf(flat, f, 0, 0);
    while k < |flat|
      invariant 0 <= k <= |flat|
      invariant count <= k
      invariant RunOf(flat, f, k - count, count)
      invariant k - count == 0 || flat[k - count - 1] != f
      invariant exists i :: RunOf(flat, f, i, maxCount)
      invariant forall i, len :: RunOf(flat, f, i, len) && i + len <= k ==> len <= Max(maxCount, count)
    {
      if flat[k] == f {
        RunGrows(flat, f, k, count);
        count := count + 1;
      } else {
        RunBreaks(flat, f, k);
        if count > maxCount {
          maxCount := count;
        }
        count := 0;
      }
      k := k + 1;
    }
    n := Max(maxCount, count);
    assert RunOf(flat, f, k - count, count);
  }

  /** A streak that reaches cell `k`, where `f` lies, is at most the current streak plus that cell. */
  lemma RunGrows(s: seq<Fruit>, f: Fruit, k: int, count: int)
    requires 0 <= count <= k < |s| && s[k] == f
    requires RunOf(s, f, k - count, count)
    requires k - count == 0 || s[k - count - 1] != f
    ensures RunOf(s, f, k - count, count + 1)
    ensures forall i, len :: RunOf(s, f, i, len) && i + len == k + 1 ==> len <= count + 1
  {
    forall i, len | RunOf(s, f, i, len) && i + len == k + 1
      ensures len <= count + 1
    {
    }
  }

  /** No streak of `f` ends on a cell that holds another fruit. */
  lemma RunBreaks(s: seq<Fruit>, f: Fruit, k: int)
    requires 0 <= k < |s| && s[k] != f
    ensures forall i, len :: RunOf(s, f, i, len) && i + len == k + 1 ==> len == 0
  {
    forall i, len | RunOf(s, f, i, len) && i + len == k + 1
      ensures len == 0
    {
    }
  }

  lemma {:induction false} CountAtLeastRun(s: seq<Fruit>, f: Fruit, i: int, len: int)
    requires RunOf(s, f, i, len)
    ensures len <= multiset(s)[f]
    decreases len
  {
    if len > 0 {
      var s' := s[..i + len - 1] + s[i + len..];
      assert s == s[..i + len - 1] + [s[i + len - 1]] + s[i + len..];
      assert multiset(s) == multiset(s') + multiset{f};
      assert RunOf(s', f, i, len - 1) by {
        forall k | i <= k < i + len - 1 ensures s'[k] == f {
          assert s'[k] == s[k];
        }
      }
      CountAtLeastRun(s', f, i, len - 1);
    }
  }

  /** The longest streak never exceeds the number of cells holding that fruit. */
  lemma NeighborCountAtMostCount(g: Grid, f: Fruit, n: nat)
    requires IsLongestRun(Cells(g), f, n)
    ensures n <= SameFruitCount(g, f)
  {
    var i :| RunOf(Cells(g), f, i, n);
    CountAtLeastRun(Cells(g), f, i, n);
  }
}
