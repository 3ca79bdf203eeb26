/**
 * The cell API the grid engine is written against: 0-based `Position::new(x, y)` and a
 * cell holding its position, its remaining candidate symbols and its answer.
 * Cells live in an arena (a sequence) and are addressed by index.
 */
module Cells {
  import opened Wrappers
  import opened Lists

  datatype Position = Position(x: nat, y: nat)

  /** `Position::move_x`: coordinates are `u8`, so the shifted one must stay in 0..=255. */
  function MoveX(p: Position, delta: int): (r: Position)
    requires 0 <= p.x + delta < 256
    ensures r.y == p.y && r.x == p.x + delta
  {
    Position(p.x + delta, p.y)
  }

  /** `Position::move_y`, the same along y. */
  function MoveY(p: Position, delta: int): (r: Position)
    requires 0 <= p.y + delta < 256
    ensures r.x == p.x && r.y == p.y + delta
  {
    Position(p.x, p.y + delta)
  }

  datatype Cell = Cell(pos: Position, candidates: seq<nat>, answer: Option<nat>)

  /** `Cell::get_lonely`: the naked single, when exactly one candidate is left. */
  function GetLonely(c: Cell): (r: Option<nat>)
    ensures r.Some? <==> |c.candidates| == 1
    ensures r.Some? ==> c.candidates == [r.value]
  {
    if |c.candidates| == 1 then Some(c.candidates[0]) else None
  }

  predicate HasAnswerCandidate(c: Cell, v: nat) {
    v in c.candidates
  }

  function RemoveAnswerCandidate(c: Cell, a: nat): Cell {
    c.(candidates := Without(c.candidates, a))
  }

  /** An unanswered cell takes the given candidates; an answered one keeps having none. */
  function RestoreAnswerCandidate(c: Cell, candidates: seq<nat>): Cell {
    if c.answer.Some? then c else c.(candidates := candidates)
  }

  function SetAnswer(c: Cell, a: nat): Cell {
    c.(answer := Some(a), candidates := [])
  }

  /** `Cell::remove_answer`: hands back the answer, if any, and leaves the cell unanswered. */
  function RemoveAnswer(c: Cell): (Option<nat>, Cell) {
    (c.answer, c.(answer := None))
  }

  function MoveTo(c: Cell, p: Position): Cell {
    c.(pos := p)
  }

  /**
   * The first cell at `pos` (`iter().find(|c| c.pos() == pos)`, also `find_cell`);
   * None when no cell is there.
   */
  function FindCell(cells: seq<Cell>, pos: Position): (r: Option<nat>)
    ensures r.Some? ==> r.value < |cells| && cells[r.value].pos == pos
    ensures r.Some? ==> forall k :: 0 <= k < r.value ==> cells[k].pos != pos
    ensures r.None? <==> forall k :: 0 <= k < |cells| ==> cells[k].pos != pos
  {
    if cells == [] then None
    else if cells[0].pos == pos then Some(0)
    else match FindCell(cells[1..], pos)
      case None => None
      case Some(k) => Some(k + 1)
  }

  /** No two cells of the arena stand on the same position. */
  predicate DistinctPositions(cells: seq<Cell>) {
    forall i, j :: 0 <= i < j < |cells| ==> cells[i].pos != cells[j].pos
  }

  /** With distinct positions, looking a cell up by its own position finds that cell. */
  lemma FindOwnCell(cells: seq<Cell>, i: nat)
    requires DistinctPositions(cells) && i < |cells|
    ensures FindCell(cells, cells[i].pos) == Some(i)
  {
  }
}
