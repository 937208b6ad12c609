/**
  The fruit enum of the game and the order in which the grid is sorted.

  Cells are compared by the NAME of their enum constant, as Kotlin strings,
  so the order is the lexicographic order of "APPLE", "BANANA", ... — not the
  declaration order. The sentinel EMPTY is compared by its name "EMPTY" as
  well, so it sorts after CHERRY and before GRAPE.
 */
module Fruits {

  /** The constants in declaration order; EMPTY marks a cell without fruit. */
  datatype Fruit =
    | APPLE | BANANA | GRAPE | ORANGE | WATERMELON | PINEAPPLE | STRAWBERRY
    | CHERRY | KIWI | PEACH | MANGO | BLUEBERRY | LEMON | LETTUCE | EMPTY

  /** The constant's `name`. */
  function Name(f: Fruit): string {
    match f
    case APPLE => "APPLE"
    case BANANA => "BANANA"
    case GRAPE => "GRAPE"
    case ORANGE => "ORANGE"
    case WATERMELON => "WATERMELON"
    case PINEAPPLE => "PINEAPPLE"
    case STRAWBERRY => "STRAWBERRY"
    case CHERRY => "CHERRY"
    case KIWI => "KIWI"
    case PEACH => "PEACH"
    case MANGO => "MANGO"
    case BLUEBERRY => "BLUEBERRY"
    case LEMON => "LEMON"
    case LETTUCE => "LETTUCE"
    case EMPTY => "EMPTY"
  }

  /** `values()`: every constant, in declaration order. */
  const AllFruits: seq<Fruit> :=
    [APPLE, BANANA, GRAPE, ORANGE, WATERMELON, PINEAPPLE, STRAWBERRY,
     CHERRY, KIWI, PEACH, MANGO, BLUEBERRY, LEMON, LETTUCE, EMPTY]

  /** `values().filter { it != EMPTY }`: the fruits `random()` draws from. */
  const RealFruits: seq<Fruit> :=
    [APPLE, BANANA, GRAPE, ORANGE, WATERMELON, PINEAPPLE, STRAWBERRY,
     CHERRY, KIWI, PEACH, MANGO, BLUEBERRY, LEMON, LETTUCE]

  /** The non-EMPTY fruits are exactly the fourteen constants APPLE..LETTUCE. */
  lemma RealFruitsAreTheNonEmptyOnes(f: Fruit)
    ensures |RealFruits| == 14 && |AllFruits| == 15
    ensures f in AllFruits
    ensures f in RealFruits <==> f != EMPTY
  {
  }

  /**
    `Fruit.random()`, with the uniform draw replaced by an index chosen by
    the caller: whatever the draw, the result is a real fruit.
   */
  function RandomFruit(draw: nat): (f: Fruit)
    ensures f != EMPTY
    ensures f in RealFruits
  {
    RealFruits[draw % |RealFruits|]
  }

  // ---------------------------------------------------------------------
  // Kotlin string comparison
  // ---------------------------------------------------------------------

  /**
    `a < b` on Kotlin strings: compare character by character; when one
    string is a prefix of the other, the shorter one is smaller.
   */
  predicate StrLess(a: string, b: string) {
    if |a| == 0 then |b| > 0
    else if |b| == 0 then false
    else if a[0] != b[0] then a[0] < b[0]
    else StrLess(a[1..], b[1..])
  }

  /** `a <= b` on Kotlin strings. */
  predicate StrLessEq(a: string, b: string) {
    a == b || StrLess(a, b)
  }

  lemma {:induction false} StrLessIrreflexive(a: string)
    ensures !StrLess(a, a)
  {
    if |a| > 0 {
      StrLessIrreflexive(a[1..]);
    }
  }

  lemma {:induction false} StrLessTransitive(a: string, b: string, c: string)
    requires StrLess(a, b) && StrLess(b, c)
    ensures StrLess(a, c)
    decreases |a|
  {
    if |a| > 0 && a[0] == b[0] && b[0] == c[0] {
      StrLessTransitive(a[1..], b[1..], c[1..]);
    }
  }

  lemma {:induction false} StrLessAsymmetric(a: string, b: string)
    requires StrLess(a, b)
    ensures !StrLess(b, a)
  {
    if StrLess(b, a) {
      StrLessTransitive(a, b, a);
      StrLessIrreflexive(a);
    }
  }

  // ---------------------------------------------------------------------
  // The name order as ranks
  // ---------------------------------------------------------------------

  /** The constants sorted by name. */
  const ByName: seq<Fruit> :=
    [APPLE, BANANA, BLUEBERRY, CHERRY, EMPTY, GRAPE, KIWI, LEMON,
     LETTUCE, MANGO, ORANGE, PEACH, PINEAPPLE, STRAWBERRY, WATERMELON]

  /** The position of a fruit in the name order. */
  function Rank(f: Fruit): (r: nat)
    ensures r < |ByName| && ByName[r] == f
  {
    match f
    case APPLE => 0
    case BANANA => 1
    case BLUEBERRY => 2
    case CHERRY => 3
    case EMPTY => 4
    case GRAPE => 5
    case KIWI => 6
    case LEMON => 7
    case LETTUCE => 8
    case MANGO => 9
    case ORANGE => 10
    case PEACH => 11
    case PINEAPPLE => 12
    case STRAWBERRY => 13
    case WATERMELON => 14
  }

  lemma ConsecutiveNamesAscend(i: nat)
    requires i + 1 < |ByName|
    ensures StrLess(Name(ByName[i]), Name(ByName[i + 1]))
  {
    if i < 7 {
      LowerNamesAscend(i);
    } else {
      UpperNamesAscend(i);
    }
  }

  lemma LowerNamesAscend(i: nat)
    requires i < 7
    ensures StrLess(Name(ByName[i]), Name(ByName[i + 1]))
  {
    if i == 1 {
      assert "BANANA"[1..] == "ANANA" && "BLUEBERRY"[1..] == "LUEBERRY";
    }
  }

  lemma UpperNamesAscend(i: nat)
    requires 7 <= i < 14
    ensures StrLess(Name(ByName[i]), Name(ByName[i + 1]))
  {
    if i == 7 {
      assert "LEMON"[1..] == "EMON" && "LETTUCE"[1..] == "ETTUCE";
      assert "EMON"[1..] == "MON" && "ETTUCE"[1..] == "TTUCE";
    } else if i == 11 {
      assert "PEACH"[1..] == "EACH" && "PINEAPPLE"[1..] == "INEAPPLE";
    }
  }

  lemma {:induction false} NamesAscend(i: nat, j: nat)
    requires i < j < |ByName|
    ensures StrLess(Name(ByName[i]), Name(ByName[j]))
    decreases j - i
  {
    ConsecutiveNamesAscend(i);
    if i + 1 < j {
      NamesAscend(i + 1, j);
      StrLessTransitive(Name(ByName[i]), Name(ByName[i + 1]), Name(ByName[j]));
    }
  }

  /** Comparing names is comparing ranks: the name order is a strict total order on fruits. */
  lemma NameOrderIsRankOrder(a: Fruit, b: Fruit)
    ensures StrLess(Name(a), Name(b)) <==> Rank(a) < Rank(b)
  {
    if Rank(a) < Rank(b) {
      NamesAscend(Rank(a), Rank(b));
    } else if Rank(a) == Rank(b) {
      StrLessIrreflexive(Name(a));
    } else {
      NamesAscend(Rank(b), Rank(a));
      StrLessAsymmetric(Name(b), Name(a));
    }
  }

  /** The fifteen names are pairwise distinct. */
  lemma NamesAreDistinct(a: Fruit, b: Fruit)
    ensures Name(a) == Name(b) <==> a == b
  {
    if a != b {
      NameOrderIsRankOrder(a, b);
      NameOrderIsRankOrder(b, a);
      StrLessIrreflexive(Name(a));
    }
  }

  /** EMPTY sorts by its name: after CHERRY, before GRAPE. */
  lemma EmptySortsBetweenCherryAndGrape()
    ensures StrLess(Name(CHERRY), Name(EMPTY)) && StrLess(Name(EMPTY), Name(GRAPE))
    ensures forall f :: StrLess(Name(f), Name(EMPTY)) <==> f in {APPLE, BANANA, BLUEBERRY, CHERRY}
  {
    forall f ensures StrLess(Name(f), Name(EMPTY)) <==> f in {APPLE, BANANA, BLUEBERRY, CHERRY} {
      NameOrderIsRankOrder(f, EMPTY);
    }
    NameOrderIsRankOrder(CHERRY, EMPTY);
    NameOrderIsRankOrder(EMPTY, GRAPE);
  }

  /** `a.name <= b.name`, the comparison `isSorted` makes between neighbours. */
  predicate NameLessEq(a: Fruit, b: Fruit)
    ensures NameLessEq(a, b) <==> Rank(a) <= Rank(b)
  {
    NameOrderIsRankOrder(a, b);
    NamesAreDistinct(a, b);
    StrLessEq(Name(a), Name(b))
  }

  /** `a.name > b.name`, the inversion test of the bubble and insertion planners. */
  predicate NameGreater(a: Fruit, b: Fruit)
    ensures NameGreater(a, b) <==> Rank(a) > Rank(b)
  {
    NameOrderIsRankOrder(b, a);
    StrLess(Name(b), Name(a))
  }
}
