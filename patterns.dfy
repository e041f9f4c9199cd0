/**
 * Well-known small patterns, worked out against the rule: the 2x2 block is a
 * still life and the three-cell blinker has period 2.
 */
module Patterns {
  import opened Grid
  import opened Life

  const Block: set<Cell> := {(0, 0), (1, 0), (0, 1), (1, 1)}
  const Horizontal: set<Cell> := {(0, 0), (1, 0), (2, 0)}
  const Vertical: set<Cell> := {(1, -1), (1, 0), (1, 1)}

  /** A cell whose live neighbours all lie in a set of k cells has at most k live neighbours. */
  lemma CountAtMost(live: set<Cell>, c: Cell, within: set<Cell>)
    requires LiveNeighbors(live, c) <= within
    ensures LiveCount(live, c) <= |within|
  {
    SubsetCardinality(LiveNeighbors(live, c), within);
  }

  /** Each cell of the block sees the other three. */
  lemma BlockCellHasThree(c: Cell)
    requires c in Block
    ensures LiveCount(Block, c) == 3
  {
    assert LiveNeighbors(Block, c) == Block - {c};
  }

  /** A cell outside the block has at most 2 live neighbours, so it is not born. */
  lemma OutsideBlockHasAtMostTwo(c: Cell)
    requires c !in Block
    ensures LiveCount(Block, c) <= 2
  {
    if c.0 < 0 || c.0 > 1 {
      // only one column of the block is within reach
      var col := if c.0 < 0 then 0 else 1;
      CountAtMost(Block, c, {(col, 0), (col, 1)});
    } else {
      // c lies above or below the block: only one row is within reach
      var row := if c.1 < 0 then 0 else 1;
      CountAtMost(Block, c, {(0, row), (1, row)});
    }
  }

  /** The 2x2 block is a still life. */
  lemma BlockIsStillLife()
    ensures NextGeneration(Block) == Block
  {
    forall c
      ensures c in NextGeneration(Block) <==> c in Block
    {
      NextGenerationMembers(Block, c);
      if c in Block {
        BlockCellHasThree(c);
      } else {
        OutsideBlockHasAtMostTwo(c);
      }
    }
  }

  /** Live-neighbour counts of the horizontal blinker on and around its middle column. */
  lemma HorizontalCounts()
    ensures LiveCount(Horizontal, (1, -1)) == 3 && LiveCount(Horizontal, (1, 1)) == 3
    ensures LiveCount(Horizontal, (1, 0)) == 2
    ensures LiveCount(Horizontal, (0, 0)) == 1 && LiveCount(Horizontal, (2, 0)) == 1
  {
    assert LiveNeighbors(Horizontal, (1, -1)) == Horizontal;
    assert LiveNeighbors(Horizontal, (1, 1)) == Horizontal;
    assert LiveNeighbors(Horizontal, (1, 0)) == {(0, 0), (2, 0)};
    assert LiveNeighbors(Horizontal, (0, 0)) == {(1, 0)};
    assert LiveNeighbors(Horizontal, (2, 0)) == {(1, 0)};
  }

  /** Live-neighbour counts of the vertical blinker on and around its middle row. */
  lemma VerticalCounts()
    ensures LiveCount(Vertical, (0, 0)) == 3 && LiveCount(Vertical, (2, 0)) == 3
    ensures LiveCount(Vertical, (1, 0)) == 2
    ensures LiveCount(Vertical, (1, -1)) == 1 && LiveCount(Vertical, (1, 1)) == 1
  {
    assert LiveNeighbors(Vertical, (0, 0)) == Vertical;
    assert LiveNeighbors(Vertical, (2, 0)) == Vertical;
    assert LiveNeighbors(Vertical, (1, 0)) == {(1, -1), (1, 1)};
    assert LiveNeighbors(Vertical, (1, -1)) == {(1, 0)};
    assert LiveNeighbors(Vertical, (1, 1)) == {(1, 0)};
  }

  /** The horizontal blinker turns into the vertical one. */
  lemma HorizontalBlinks()
    ensures NextGeneration(Horizontal) == Vertical
  {
    forall c
      ensures c in NextGeneration(Horizontal) <==> c in Vertical
    {
      NextGenerationMembers(Horizontal, c);
      if c in Horizontal + Vertical {
        HorizontalCounts();
      } else if c.0 != 1 {
        // c misses one end of the row
        var far := if c.0 < 1 then (2, 0) else (0, 0);
        CountAtMost(Horizontal, c, Horizontal - {far});
      } else {
        assert LiveNeighbors(Horizontal, c) == {};
      }
    }
  }

  /** The vertical blinker turns back into the horizontal one. */
  lemma VerticalBlinks()
    ensures NextGeneration(Vertical) == Horizontal
  {
    forall c
      ensures c in NextGeneration(Vertical) <==> c in Horizontal
    {
      NextGenerationMembers(Vertical, c);
      if c in Horizontal + Vertical {
        VerticalCounts();
      } else if c.1 != 0 {
        // c misses one end of the column
        var far := if c.1 < 0 then (1, 1) else (1, -1);
        CountAtMost(Vertical, c, Vertical - {far});
      } else {
        assert LiveNeighbors(Vertical, c) == {};
      }
    }
  }

  /** The blinker has period 2. */
  lemma BlinkerHasPeriodTwo()
    ensures NextGeneration(NextGeneration(Horizontal)) == Horizontal
  {
    HorizontalBlinks();
    VerticalBlinks();
  }
}
