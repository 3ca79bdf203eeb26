/**
 * The 0-based `NormalGame`: the cell arena, the row, column and block groups over it and
 * the running count of answered cells, with the state queries and the assignment that
 * the solver and the undo are written against.
 */
module Board {
  import opened Wrappers
  import opened Setting
  import opened Lists
  import opened Cells
  import opened Groups
  import opened Layout

  datatype GameState = Solving | Complete | Failure

  // ---------------------------------------------------------------- counting answers

  /** How many cells hold an answer (`answered_count` is kept equal to it). */
  function AnsweredCount(cells: seq<Cell>): (n: nat)
    ensures n <= |cells|
  {
    if cells == [] then 0
    else (if cells[0].answer.Some? then 1 else 0) + AnsweredCount(cells[1..])
  }

  predicate AllAnswered(cells: seq<Cell>) {
    forall i :: 0 <= i < |cells| ==> cells[i].answer.Some?
  }

  /** Replacing one cell changes the count by what the old and the new cell contribute. */
  lemma {:induction false} AnsweredCountUpdate(cells: seq<Cell>, i: nat, c: Cell)
    requires i < |cells|
    ensures AnsweredCount(cells[i := c]) + (if cells[i].answer.Some? then 1 else 0) ==
      AnsweredCount(cells) + (if c.answer.Some? then 1 else 0)
  {
    if i > 0 {
      assert cells[i := c][1..] == cells[1..][i - 1 := c];
      AnsweredCountUpdate(cells[1..], i - 1, c);
    }
  }

  /** The count reaches the number of cells exactly when every cell is answered. */
  lemma {:induction false} AnsweredCountFull(cells: seq<Cell>)
    ensures AnsweredCount(cells) == |cells| <==> AllAnswered(cells)
  {
    if cells != [] {
      AnsweredCountFull(cells[1..]);
      if AllAnswered(cells) {
        assert AllAnswered(cells[1..]) by {
          forall i | 0 <= i < |cells[1..]| ensures cells[1..][i].answer.Some? {
            assert cells[1..][i] == cells[i + 1];
          }
        }
      }
      if AnsweredCount(cells) == |cells| {
        forall i | 0 <= i < |cells| ensures cells[i].answer.Some? {
          if i > 0 { assert cells[i] == cells[1..][i - 1]; }
        }
      }
    }
  }

  /** No cell answered, no count. */
  lemma {:induction false} AnsweredCountNone(cells: seq<Cell>)
    requires forall i :: 0 <= i < |cells| ==> cells[i].answer.None?
    ensures AnsweredCount(cells) == 0
  {
    if cells != [] {
      assert forall i :: 0 <= i < |cells[1..]| ==> cells[1..][i] == cells[i + 1];
      AnsweredCountNone(cells[1..]);
    }
  }

  // ---------------------------------------------------------------- the invariant

  /** Some member of the group holds the answer `v`. */
  predicate AnsweredIn(g: Group, cells: seq<Cell>, v: nat)
    requires IdsIn(g.members, |cells|)
  {
    exists k :: 0 <= k < |g.members| && cells[g.members[k]].answer == Some(v)
  }

  /** An answered cell holds a symbol of the alphabet and no candidates; candidates are symbols. */
  predicate CellOk(c: Cell, side: nat) {
    (c.answer.Some? ==> 1 <= c.answer.value <= side && c.candidates == []) &&
    forall v :: v in c.candidates ==> 1 <= v <= side
  }

  /**
   * A group has `side` members in the arena, and its list names each symbol at most once
   * and only symbols of the alphabet that none of its members has answered.
   */
  predicate GroupOk(g: Group, cells: seq<Cell>, side: nat) {
    IdsIn(g.members, |cells|) && |g.members| == side && NoDup(g.remaining) &&
    forall v :: v in g.remaining ==> 1 <= v <= side && !AnsweredIn(g, cells, v)
  }

  predicate GroupsIn(groups: seq<Group>, n: nat) {
    forall j :: 0 <= j < |groups| ==> IdsIn(groups[j].members, n)
  }

  /** What every operation of the game keeps. */
  predicate Consistent(s: GameSetting, cells: seq<Cell>, groups: seq<Group>, count: nat) {
    Usable(s) && |cells| == SideSize(s) * SideSize(s) && DistinctPositions(cells) &&
    count == AnsweredCount(cells) &&
    (forall i :: 0 <= i < |cells| ==> CellOk(cells[i], SideSize(s))) &&
    (forall j :: 0 <= j < |groups| ==> GroupOk(groups[j], cells, SideSize(s)))
  }

  lemma ConsistentGroupsIn(s: GameSetting, cells: seq<Cell>, groups: seq<Group>, count: nat)
    requires Consistent(s, cells, groups, count)
    ensures GroupsIn(groups, |cells|)
  {
    forall j | 0 <= j < |groups| ensures IdsIn(groups[j].members, |cells|) {
      assert GroupOk(groups[j], cells, SideSize(s));
    }
  }

  // ---------------------------------------------------------------- status

  predicate HasDuplicate(groups: seq<Group>, cells: seq<Cell>)
    requires GroupsIn(groups, |cells|)
  {
    exists j :: 0 <= j < |groups| && IsDuplicateAnswer(groups[j], cells)
  }

  /** An unanswered cell that has run out of candidates. */
  predicate Stuck(cells: seq<Cell>) {
    exists i :: 0 <= i < |cells| && cells[i].answer.None? && cells[i].candidates == []
  }

  predicate AllClear(groups: seq<Group>) {
    forall j :: 0 <= j < |groups| ==> IsAllClearAnswerCandidate(groups[j])
  }

  /**
   * `NormalGame::status`: Failure when a group repeats an answer or an unanswered cell has
   * no candidate left; otherwise Complete when every group's list is empty and every cell
   * is answered; otherwise Solving.
   */
  function GameStatus(cells: seq<Cell>, groups: seq<Group>): GameState
    requires GroupsIn(groups, |cells|)
  {
    if HasDuplicate(groups, cells) || Stuck(cells) then Failure
    else if AllClear(groups) && AllAnswered(cells) then Complete
    else Solving
  }

  /** The answers of a group's members, when all of them are answered, are as many as the members. */
  lemma {:induction false} AnswersFromAll(members: seq<nat>, cells: seq<Cell>, i: nat)
    requires IdsIn(members, |cells|) && i <= |members|
    requires forall k :: i <= k < |members| ==> cells[members[k]].answer.Some?
    ensures |AnswersFrom(members, cells, i)| == |members| - i
    decreases |members| - i
  {
    if i < |members| {
      AnswersFromAll(members, cells, i + 1);
    }
  }

  /** The alphabet `1..=side` as a set has `side` elements. */
  lemma AlphabetCard(side: nat)
    ensures |Elems(Range(1, side + 1))| == side
  {
    var r := Range(1, side + 1);
    RangeAt(1, side + 1);
    RangeMembers(1, side + 1);
    assert NoDup(r);
    NoDupCard(r);
  }

  /** A subset as large as its superset is the whole superset. */
  lemma SubsetFull(a: set<nat>, b: set<nat>)
    requires a <= b && |a| == |b|
    ensures a == b
  {
    assert b * a == a;
    assert |b - a| == 0;
    assert b - a == {};
  }

  /**
   * Pigeonhole: when all `side` members of a consistent group are answered and no two
   * share an answer, every symbol is placed, so the group's list is empty.
   */
  lemma FullGroupClear(g: Group, cells: seq<Cell>, side: nat)
    requires GroupOk(g, cells, side)
    requires forall i :: 0 <= i < |cells| ==> CellOk(cells[i], side)
    requires forall k :: 0 <= k < |g.members| ==> cells[g.members[k]].answer.Some?
    requires !SharedAnswerFrom(g.members, cells, 0)
    ensures g.remaining == []
  {
    var answers := AnswersFrom(g.members, cells, 0);
    AnswersFromAll(g.members, cells, 0);
    AnswersFromDistinct(g.members, cells, 0);
    AnswersFromMembers(g.members, cells, 0);
    NoDupCard(answers);
    AlphabetCard(side);
    RangeMembers(1, side + 1);
    var alphabet := Elems(Range(1, side + 1));
    assert Elems(answers) <= alphabet by {
      forall v | v in Elems(answers) ensures v in alphabet {
        var k :| 0 <= k < |g.members| && cells[g.members[k]].answer == Some(v);
        assert CellOk(cells[g.members[k]], side);
      }
    }
    SubsetFull(Elems(answers), alphabet);
    if g.remaining != [] {
      var v := g.remaining[0];
      assert v in g.remaining;
      assert v in alphabet;
      assert v in answers;
      assert AnsweredIn(g, cells, v);
    }
  }

  /** Under the invariant the game is complete exactly when every cell is answered and no group repeats an answer. */
  lemma CompleteMeans(s: GameSetting, cells: seq<Cell>, groups: seq<Group>, count: nat)
    requires Consistent(s, cells, groups, count)
    ensures GroupsIn(groups, |cells|)
    ensures GameStatus(cells, groups) == Complete <==> AllAnswered(cells) && !HasDuplicate(groups, cells)
  {
    ConsistentGroupsIn(s, cells, groups, count);
    if AllAnswered(cells) && !HasDuplicate(groups, cells) {
      forall j | 0 <= j < |groups| ensures IsAllClearAnswerCandidate(groups[j]) {
        assert GroupOk(groups[j], cells, SideSize(s));
        assert !IsDuplicateAnswer(groups[j], cells);
        FullGroupClear(groups[j], cells, SideSize(s));
      }
    }
  }

  /**
   * Under the invariant a game that is still being solved has a cell with at least one
   * candidate, and that cell is unanswered: the guess of the solver has a cell to pick.
   */
  lemma SolvingHasCandidate(s: GameSetting, cells: seq<Cell>, groups: seq<Group>, count: nat)
    requires Consistent(s, cells, groups, count)
    requires GroupsIn(groups, |cells|) && GameStatus(cells, groups) == Solving
    ensures exists i :: 0 <= i < |cells| && |cells[i].candidates| > 0 && cells[i].answer.None?
  {
    CompleteMeans(s, cells, groups, count);
    var i :| 0 <= i < |cells| && cells[i].answer.None?;
    assert cells[i].candidates != [];
  }

  // ---------------------------------------------------------------- assignment

  /** The groups after symbol `a` is placed in cell `i`: every group with that member drops `a`. */
  function DropFromGroups(groups: seq<Group>, i: nat, a: nat): (r: seq<Group>)
    ensures |r| == |groups|
    ensures forall j :: 0 <= j < |r| ==> r[j].members == groups[j].members
  {
    seq(|groups|, j requires 0 <= j < |groups| =>
      if i in groups[j].members then Group(groups[j].members, Without(groups[j].remaining, a)) else groups[j])
  }

  /** Answering cell `i` with `a` makes `a` answered in the groups with that member and changes nothing else. */
  lemma AnsweredInUpdate(g: Group, cells: seq<Cell>, i: nat, a: nat, v: nat)
    requires IdsIn(g.members, |cells|) && i < |cells| && cells[i].answer.None?
    ensures AnsweredIn(g, cells[i := Cells.SetAnswer(cells[i], a)], v) <==>
      AnsweredIn(g, cells, v) || (i in g.members && v == a)
  {
    var cells' := cells[i := Cells.SetAnswer(cells[i], a)];
    if AnsweredIn(g, cells', v) {
      var k :| 0 <= k < |g.members| && cells'[g.members[k]].answer == Some(v);
      if g.members[k] != i {
        assert cells[g.members[k]].answer == Some(v);
      }
    }
    if AnsweredIn(g, cells, v) {
      var k :| 0 <= k < |g.members| && cells[g.members[k]].answer == Some(v);
      assert g.members[k] != i;
      assert cells'[g.members[k]].answer == Some(v);
    }
    if i in g.members && v == a {
      var k :| 0 <= k < |g.members| && g.members[k] == i;
      assert cells'[g.members[k]].answer == Some(v);
    }
  }

  /** Assigning a symbol of the alphabet to an unanswered cell keeps the invariant. */
  lemma SetAnswerKeeps(s: GameSetting, cells: seq<Cell>, groups: seq<Group>, count: nat, i: nat, a: nat)
    requires Consistent(s, cells, groups, count)
    requires i < |cells| && cells[i].answer.None? && 1 <= a <= SideSize(s)
    ensures Consistent(s, cells[i := Cells.SetAnswer(cells[i], a)], DropFromGroups(groups, i, a), count + 1)
  {
    var side := SideSize(s);
    var cells' := cells[i := Cells.SetAnswer(cells[i], a)];
    var groups' := DropFromGroups(groups, i, a);
    AnsweredCountUpdate(cells, i, Cells.SetAnswer(cells[i], a));
    forall j | 0 <= j < |groups'| ensures GroupOk(groups'[j], cells', side) {
      var g := groups[j];
      assert GroupOk(g, cells, side);
      WithoutMembers(g.remaining, a);
      WithoutNoDup(g.remaining, a);
      forall v | v in groups'[j].remaining ensures 1 <= v <= side && !AnsweredIn(g, cells', v) {
        AnsweredInUpdate(g, cells, i, a, v);
      }
    }
  }

  // ---------------------------------------------------------------- the game object

  /** Same cells at the same positions, and groups over the same members. */
  predicate SameShape(cells: seq<Cell>, groups: seq<Group>, cells': seq<Cell>, groups': seq<Group>) {
    |cells'| == |cells| && (forall i :: 0 <= i < |cells| ==> cells'[i].pos == cells[i].pos) &&
    |groups'| == |groups| && forall j :: 0 <= j < |groups| ==> groups'[j].members == groups[j].members
  }

  /** Every answer given in `cells` is still given in `cells'`. */
  predicate KeepsAnswers(cells: seq<Cell>, cells': seq<Cell>)
    requires |cells'| == |cells|
  {
    forall i :: 0 <= i < |cells| && cells[i].answer.Some? ==> cells'[i].answer == cells[i].answer
  }

  /** A snapshot of the mutable state of a game: its cells, groups and answer count. */
  datatype State = State(cells: seq<Cell>, groups: seq<Group>, count: nat)

  predicate ConsistentState(s: GameSetting, st: State) {
    Consistent(s, st.cells, st.groups, st.count)
  }

  /**
   * `NormalGame::set_answer` on a snapshot: an answered cell `i` leaves everything as it is;
   * otherwise the cell takes `a` and drops its candidates, every group with `i` as a member
   * drops `a` from its list, and the count goes up by one.
   */
  function GameAnswer(st: State, i: nat, a: nat): (r: State)
    requires i < |st.cells|
    ensures SameShape(st.cells, st.groups, r.cells, r.groups) && r.count >= st.count
    ensures KeepsAnswers(st.cells, r.cells)
  {
    if st.cells[i].answer.Some? then st
    else State(st.cells[i := Cells.SetAnswer(st.cells[i], a)], DropFromGroups(st.groups, i, a), st.count + 1)
  }

  /** The answer lands in cell `i` and keeps the game consistent. */
  lemma GameAnswerKeeps(s: GameSetting, st: State, i: nat, a: nat)
    requires ConsistentState(s, st) && i < |st.cells| && 1 <= a <= SideSize(s)
    ensures ConsistentState(s, GameAnswer(st, i, a))
    ensures GameAnswer(st, i, a).cells[i].answer == if st.cells[i].answer.Some? then st.cells[i].answer else Some(a)
  {
    if st.cells[i].answer.None? {
      SetAnswerKeeps(s, st.cells, st.groups, st.count, i, a);
    }
  }

  class Game {
    const setting: GameSetting
    var cells: seq<Cell>
    var groups: seq<Group>
    var answeredCount: nat

    ghost predicate Valid()
      reads this
    {
      Consistent(setting, cells, groups, answeredCount)
    }

    /**
     * `NormalGame::new`: the row-major grid of unanswered cells with every symbol as a
     * candidate, its rows, columns and blocks, and no answer counted.
     */
    constructor (setting: GameSetting)
      requires Usable(setting)
      ensures Valid() && this.setting == setting
      ensures cells == InitialCells(setting) && answeredCount == 0
      ensures |groups| == 3 * SideSize(setting)
      ensures groups[..SideSize(setting)] == CreateHorizontalGroups(cells, setting)
      ensures groups[SideSize(setting)..2 * SideSize(setting)] == CreateVerticalGroups(cells, setting)
      ensures forall b :: 0 <= b < SideSize(setting) ==>
        IsBlockGroup(groups[2 * SideSize(setting)..][b], cells, setting, b)
    {
      var c := InitialCells(setting);
      InitialCellsLayout(setting);
      RowMajorCovers(c, setting);
      var g := CreateGroups(c, setting);
      NewConsistent(setting, c, g);
      this.setting := setting;
      cells := c;
      groups := g;
      answeredCount := 0;
    }

    /** `NormalGame::clone`: an independent game in the same state. */
    constructor Clone(other: Game)
      requires other.Valid()
      ensures Valid()
      ensures setting == other.setting && cells == other.cells && groups == other.groups
      ensures answeredCount == other.answeredCount
    {
      setting := other.setting;
      cells := other.cells;
      groups := other.groups;
      answeredCount := other.answeredCount;
    }

    function Status(): GameState
      reads this
      requires Valid()
    {
      ConsistentGroupsIn(setting, cells, groups, answeredCount);
      GameStatus(cells, groups)
    }

    /**
     * `NormalGame::set_answer`: nothing happens when the cell at `pos` is answered;
     * otherwise it takes `a`, drops its candidates, every group with it as a member drops
     * `a` from its list, and the count goes up by one.
     */
    method SetAnswer(pos: Position, a: nat)
      requires Valid() && FindCell(cells, pos).Some? && 1 <= a <= SideSize(setting)
      modifies this
      ensures Valid()
      ensures State(cells, groups, answeredCount) ==
        GameAnswer(old(State(cells, groups, answeredCount)), FindCell(old(cells), pos).value, a)
    {
      var i := FindCell(cells, pos).value;
      if cells[i].answer.None? {
        SetAnswerKeeps(setting, cells, groups, answeredCount, i, a);
        cells := cells[i := Cells.SetAnswer(cells[i], a)];
        groups := DropFromGroups(groups, i, a);
        answeredCount := answeredCount + 1;
      }
    }
  }

  /** A group over unanswered cells that lists the whole alphabet is consistent. */
  lemma FreshGroupOk(s: GameSetting, cells: seq<Cell>, g: Group)
    requires Usable(s) && IdsIn(g.members, |cells|) && |g.members| == SideSize(s)
    requires g.remaining == AnswerCandidate(s)
    requires forall i :: 0 <= i < |cells| ==> cells[i].answer.None?
    ensures GroupOk(g, cells, SideSize(s))
  {
    AnswerCandidateIsAlphabet(s);
    assert NoDup(AnswerCandidate(s));
  }

  /** The fresh game satisfies the invariant. */
  lemma NewConsistent(s: GameSetting, cells: seq<Cell>, groups: seq<Group>)
    requires Usable(s) && cells == InitialCells(s)
    requires |groups| == 3 * SideSize(s)
    requires groups[..SideSize(s)] == CreateHorizontalGroups(cells, s)
    requires groups[SideSize(s)..2 * SideSize(s)] == CreateVerticalGroups(cells, s)
    requires forall b :: 0 <= b < SideSize(s) ==> IsBlockGroup(groups[2 * SideSize(s)..][b], cells, s, b)
    ensures Consistent(s, cells, groups, 0)
  {
    var side := SideSize(s);
    InitialCellsLayout(s);
    RowMajorDistinct(cells, side);
    AnsweredCountNone(cells);
    forall j | 0 <= j < |groups| ensures GroupOk(groups[j], cells, side) {
      FreshGroupAt(s, cells, groups, j);
    }
  }

  /** Each group of the fresh game, line or block, is over cells of the board and lists the whole alphabet. */
  lemma FreshGroupAt(s: GameSetting, cells: seq<Cell>, groups: seq<Group>, j: nat)
    requires Usable(s) && cells == InitialCells(s)
    requires |groups| == 3 * SideSize(s) && j < |groups|
    requires groups[..SideSize(s)] == CreateHorizontalGroups(cells, s)
    requires groups[SideSize(s)..2 * SideSize(s)] == CreateVerticalGroups(cells, s)
    requires forall b :: 0 <= b < SideSize(s) ==> IsBlockGroup(groups[2 * SideSize(s)..][b], cells, s, b)
    ensures GroupOk(groups[j], cells, SideSize(s))
  {
    var side := SideSize(s);
    var g := groups[j];
    InitialCellsLayout(s);
    if j < 2 * side {
      LineGroupsSize(cells, s);
      if j < side {
        assert g == groups[..side][j];
      } else {
        assert g == groups[side..2 * side][j - side];
      }
      forall k | 0 <= k < |g.members| ensures g.members[k] < |cells| {
        assert g.members[k] in g.members;
      }
    } else {
      assert g == groups[2 * side..][j - 2 * side];
      forall k | 0 <= k < |g.members| ensures g.members[k] < |cells| {
        assert FindCell(cells, BlockCell(s, j - 2 * side, k)) == Some(g.members[k]);
      }
    }
    FreshGroupOk(s, cells, g);
  }
}
