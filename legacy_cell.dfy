/**
 * The first cell API of the engine: a cell knows only its position, and positions are
 * 1-based `row`/`col` pairs laid out row-major.
 */
module LegacyCell {
  import opened Setting
  import Arith

  datatype Position = Position(row: nat, col: nat)

  datatype Cell = Cell(pos: Position)

  /** Where `create_cells` puts the cell with index `i` on a grid of side `side`. */
  function PositionOf(side: nat, i: nat): Position
    requires side > 0
  {
    Position(i / side + 1, i % side + 1)
  }

  /** The cells `create_cells` returns, as a sequence indexed like its result. */
  function Layout(side: nat): seq<Cell>
    requires side > 0
  {
    seq(side * side, i requires 0 <= i => Cell(PositionOf(side, i)))
  }

  /** Row-major: index `i` holds row `i / side + 1` and column `i % side + 1`, both in 1..=side. */
  lemma LayoutBounds(side: nat, i: nat)
    requires side > 0 && i < side * side
    ensures 1 <= PositionOf(side, i).row <= side && 1 <= PositionOf(side, i).col <= side
  {
    Arith.DivBelow(i, side, side);
  }

  /** Different indexes hold different positions. */
  lemma LayoutDistinct(side: nat, i: nat, j: nat)
    requires side > 0 && i != j
    ensures PositionOf(side, i) != PositionOf(side, j)
  {
    assert i == (i / side) * side + i % side;
    assert j == (j / side) * side + j % side;
  }

  /** Every position of the grid is present, at index `(row - 1) * side + (col - 1)`. */
  lemma LayoutCovers(side: nat, row: nat, col: nat)
    requires side > 0 && 1 <= row <= side && 1 <= col <= side
    ensures (row - 1) * side + (col - 1) < side * side
    ensures PositionOf(side, (row - 1) * side + (col - 1)) == Position(row, col)
  {
    var q, r := row - 1, col - 1;
    Arith.GridIndex(q, r, side);
  }

  /** `create_cells`: the nested `for row` / `for col` loops that push one cell per position. */
  method CreateCells(setting: GameSetting) returns (ret: seq<Cell>)
    requires Fits(setting) && SideSize(setting) > 0
    ensures ret == Layout(SideSize(setting))
  {
    var side := SideSize(setting);
    ret := [];
    var row := 1;
    while row <= side
      invariant 1 <= row <= side + 1
      invariant |ret| == (row - 1) * side
      invariant forall k :: 0 <= k < |ret| ==> ret[k] == Cell(PositionOf(side, k))
    {
      var col := 1;
      while col <= side
        invariant 1 <= col <= side + 1
        invariant |ret| == (row - 1) * side + (col - 1)
        invariant forall k :: 0 <= k < |ret| ==> ret[k] == Cell(PositionOf(side, k))
      {
        Arith.DivModOf(row - 1, col - 1, side);
        ret := ret + [Cell(Position(row, col))];
        col := col + 1;
      }
      row := row + 1;
    }
  }

  /** The tests' 2x3 grid: 36 cells, starting (1,1), (1,2) and ending (6,6). */
  lemma LayoutExample()
    ensures |Layout(SideSize(GameSetting(2, 3)))| == 36
    ensures Layout(6)[0].pos == Position(1, 1)
    ensures Layout(6)[1].pos == Position(1, 2)
    ensures Layout(6)[35].pos == Position(6, 6)
  {
    Arith.DivModOf(5, 5, 6);
  }
}
