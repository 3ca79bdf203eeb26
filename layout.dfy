/**
 * The row-major 0-based grid a fresh game starts from, and what the group builders of
 * `group.rs` produce on it.
 */
module Layout {
  import opened Wrappers
  import opened Setting
  import opened Lists
  import opened Cells
  import opened Groups
  import Arith

  /** Cell `i` of a `side x side` grid stands at x = `i % side`, y = `i / side`. */
  predicate RowMajor(cells: seq<Cell>, side: nat) {
    side > 0 && |cells| == side * side &&
    forall i :: 0 <= i < |cells| ==> cells[i].pos == Position(i % side, i / side)
  }

  /** The cells of a fresh game: row-major, no answer, every symbol a candidate. */
  function InitialCells(s: GameSetting): seq<Cell>
    requires Usable(s)
  {
    Grid(SideSize(s), AnswerCandidate(s))
  }

  /** A `side x side` row-major grid of unanswered cells that all hold `candidates`. */
  function Grid(side: nat, candidates: seq<nat>): seq<Cell>
    requires side > 0
  {
    seq(side * side, i requires 0 <= i => Cell(Position(i % side, i / side), candidates, None))
  }

  lemma InitialCellsLayout(s: GameSetting)
    requires Usable(s)
    ensures RowMajor(InitialCells(s), SideSize(s))
    ensures forall i :: 0 <= i < |InitialCells(s)| ==>
      InitialCells(s)[i].candidates == AnswerCandidate(s) && InitialCells(s)[i].answer == None
  {
  }

  lemma RowMajorDistinct(cells: seq<Cell>, side: nat)
    requires RowMajor(cells, side)
    ensures DistinctPositions(cells)
  {
    forall i, j | 0 <= i < j < |cells| ensures cells[i].pos != cells[j].pos {
      assert i == (i / side) * side + i % side;
      assert j == (j / side) * side + j % side;
    }
  }

  /** Position `(x, y)` of the grid is cell `y * side + x`, and a lookup finds it there. */
  lemma RowMajorFind(cells: seq<Cell>, side: nat, x: nat, y: nat)
    requires RowMajor(cells, side) && x < side && y < side
    ensures y * side + x < |cells|
    ensures FindCell(cells, Position(x, y)) == Some(y * side + x)
  {
    Arith.GridIndex(y, x, side);
    RowMajorDistinct(cells, side);
    FindOwnCell(cells, y * side + x);
  }

  lemma RowMajorCovers(cells: seq<Cell>, s: GameSetting)
    requires Usable(s) && RowMajor(cells, SideSize(s))
    ensures Covers(cells, s)
  {
    forall x: nat, y: nat | x < SideSize(s) && y < SideSize(s)
      ensures FindCell(cells, Position(x, y)).Some?
    {
      RowMajorFind(cells, SideSize(s), x, y);
    }
  }

  /** Column `x` of the row-major grid is cells `x, side + x, …, (side - 1) * side + x`. */
  lemma RowMajorColumn(cells: seq<Cell>, side: nat, x: nat)
    requires RowMajor(cells, side) && x < side
    ensures Select(cells, Vertical, x) == seq(side, j requires 0 <= j => j * side + x)
  {
    var ids := seq(side, j requires 0 <= j => j * side + x);
    ColumnIdsIncreasing(side, x);
    forall k: nat ensures k in ids <==> k < |cells| && cells[k].pos.x == x {
      ColumnMember(cells, side, x, k);
    }
    forall j | 0 <= j < side ensures ids[j] >= 0 {
      Arith.MulNat(j, side);
    }
    var ns: seq<nat> := ids;
    IncreasingUnique(Select(cells, Vertical, x), ns);
  }

  /** Cell `k` is in column `x` exactly when `k` is one of the column's indexes. */
  lemma ColumnMember(cells: seq<Cell>, side: nat, x: nat, k: nat)
    requires RowMajor(cells, side) && x < side
    ensures k in seq(side, j requires 0 <= j => j * side + x) <==> k < |cells| && cells[k].pos.x == x
  {
    var ids := seq(side, j requires 0 <= j => j * side + x);
    if k in ids {
      var j :| 0 <= j < side && ids[j] == k;
      Arith.GridIndex(j, x, side);
    }
    if k < |cells| && cells[k].pos.x == x {
      Arith.GridSplit(k, side);
      assert ids[k / side] == k;
    }
  }

  lemma ColumnIdsIncreasing(side: nat, x: nat)
    ensures Increasing(seq(side, j requires 0 <= j => j * side + x))
  {
    var ids := seq(side, j requires 0 <= j => j * side + x);
    forall i, j | 0 <= i < j < side ensures ids[i] < ids[j] {
      Arith.MulMono(i + 1, j, side);
    }
  }

  /** Row `y` of the row-major grid is cells `y * side, …, y * side + side - 1`. */
  lemma RowMajorRow(cells: seq<Cell>, side: nat, y: nat)
    requires RowMajor(cells, side) && y < side
    ensures Select(cells, Horizontal, y) == seq(side, j requires 0 <= j => y * side + j)
  {
    var ids := seq(side, j requires 0 <= j => y * side + j);
    assert Increasing(ids);
    forall k: nat ensures k in ids <==> k < |cells| && cells[k].pos.y == y {
      RowMember(cells, side, y, k);
    }
    IncreasingUnique(Select(cells, Horizontal, y), ids);
  }

  /** Cell `k` is in row `y` exactly when `k` is one of the row's indexes. */
  lemma RowMember(cells: seq<Cell>, side: nat, y: nat, k: nat)
    requires RowMajor(cells, side) && y < side
    ensures k in seq(side, j requires 0 <= j => y * side + j) <==> k < |cells| && cells[k].pos.y == y
  {
    var ids := seq(side, j requires 0 <= j => y * side + j);
    if k in ids {
      var j :| 0 <= j < side && ids[j] == k;
      Arith.GridIndex(y, j, side);
    }
    if k < |cells| && cells[k].pos.y == y {
      Arith.GridSplit(k, side);
      assert ids[k % side] == k;
    }
  }

  /** On the row-major grid every row and every column group has `side` members. */
  lemma LineGroupsSize(cells: seq<Cell>, s: GameSetting)
    requires Usable(s) && RowMajor(cells, SideSize(s))
    ensures forall v :: 0 <= v < SideSize(s) ==>
      |CreateVerticalGroups(cells, s)[v].members| == SideSize(s) &&
      |CreateHorizontalGroups(cells, s)[v].members| == SideSize(s)
  {
    forall v | 0 <= v < SideSize(s)
      ensures |CreateVerticalGroups(cells, s)[v].members| == SideSize(s)
      ensures |CreateHorizontalGroups(cells, s)[v].members| == SideSize(s)
    {
      RowMajorColumn(cells, SideSize(s), v);
      RowMajorRow(cells, SideSize(s), v);
    }
  }

  /** On the row-major grid, member `j` of block `b` is the cell at the block's `j`-th position. */
  lemma RowMajorBlock(cells: seq<Cell>, s: GameSetting, g: Group, b: nat)
    requires Usable(s) && RowMajor(cells, SideSize(s)) && b < SideSize(s)
    requires IsBlockGroup(g, cells, s, b)
    ensures forall j :: 0 <= j < |g.members| ==> g.members[j] < |cells| && cells[g.members[j]].pos == BlockCell(s, b, j)
  {
  }

  /**
   * The tests' 2x3 row and column groups: column 0 runs from (0,0) down to (0,5), column 5
   * from (5,0) to (5,5), row 0 from (0,0) to (5,0) and row 5 from (0,5) to (5,5).
   */
  lemma LineGroupsExample(cells: seq<Cell>)
    requires RowMajor(cells, 6)
    ensures var vg := CreateVerticalGroups(cells, GameSetting(2, 3));
      |vg| == 6 && vg[0].members == [0, 6, 12, 18, 24, 30] && vg[5].members == [5, 11, 17, 23, 29, 35]
    ensures var hg := CreateHorizontalGroups(cells, GameSetting(2, 3));
      |hg| == 6 && hg[0].members == [0, 1, 2, 3, 4, 5] && hg[5].members == [30, 31, 32, 33, 34, 35]
    ensures cells[0].pos == Position(0, 0) && cells[5].pos == Position(5, 0)
    ensures cells[30].pos == Position(0, 5) && cells[35].pos == Position(5, 5)
  {
    ColumnGroupsExample(cells);
    RowGroupsExample(cells);
  }

  /** The first and last column groups of the 2x3 example. */
  lemma ColumnGroupsExample(cells: seq<Cell>)
    requires RowMajor(cells, 6)
    ensures var vg := CreateVerticalGroups(cells, GameSetting(2, 3));
      |vg| == 6 && vg[0].members == [0, 6, 12, 18, 24, 30] && vg[5].members == [5, 11, 17, 23, 29, 35]
  {
    RowMajorColumn(cells, 6, 0);
    RowMajorColumn(cells, 6, 5);
  }

  /** The first and last row groups of the 2x3 example. */
  lemma RowGroupsExample(cells: seq<Cell>)
    requires RowMajor(cells, 6)
    ensures var hg := CreateHorizontalGroups(cells, GameSetting(2, 3));
      |hg| == 6 && hg[0].members == [0, 1, 2, 3, 4, 5] && hg[5].members == [30, 31, 32, 33, 34, 35]
  {
    RowMajorRow(cells, 6, 0);
    RowMajorRow(cells, 6, 5);
  }
}
