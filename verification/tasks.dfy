/**
  The value types shared by the planners, the monkeys and the controller.
  Their declarations live in files outside this model; their shape is the
  one every use site relies on.
 */
module Tasks {
  import opened Fruits
  import opened GridModel

  /** The three sorting algorithms a monkey can run. */
  datatype SortAlgorithm = BOGO | BUBBLE | INSERTION

  /** One unit of work: carry the fruit at `from` to `to` and bring back what was there. */
  datatype ShuffleTask = ShuffleTask(from: Pos, to: Pos, fruit: Fruit)

  /** A task is well formed for a grid when both ends are distinct cells of it and `fruit` is what `from` holds. */
  predicate TaskFits(g: Grid, t: ShuffleTask)
    requires g.Valid()
  {
    && g.InBounds(t.from) && g.InBounds(t.to) && t.from != t.to
    && t.fruit == Get(g, t.from) && t.fruit != EMPTY
  }
}
