/**
 * The propagation solver (`solver.rs`): rounds of naked singles and hidden singles, each
 * answer followed by the elimination of its symbol from the cell's groups and their cells,
 * and, after three rounds without progress, a guess on the cell with the fewest candidates
 * tried on copies of the game.
 *
 * Every change of state is specified by a function on a snapshot of the game's fields, and
 * the methods are proved to compute it.
 */
module Solve {
  import opened Wrappers
  import opened Setting
  import opened Lists
  import opened Cells
  import opened Groups
  import opened Board
  import opened RemoveAnswer

  function Snap(g: Game): State
    reads g
  {
    State(g.cells, g.groups, g.answeredCount)
  }

  predicate Shaped(st: State, st': State) {
    SameShape(st.cells, st.groups, st'.cells, st'.groups)
  }

  // ---------------------------------------------------------------- remove_group_answer_candidate

  /** Some group among `ids` has `c` as a member. */
  predicate InAny(groups: seq<Group>, ids: seq<nat>, c: nat)
    requires forall k :: 0 <= k < |ids| ==> ids[k] < |groups|
  {
    |ids| > 0 && (InAny(groups, ids[..|ids| - 1], c) || c in groups[ids[|ids| - 1]].members)
  }

  /** The groups `ids` drop `a` from their lists, and their member cells drop it from their candidates. */
  function EliminateIn(st: State, ids: seq<nat>, a: nat): (r: State)
    requires GroupsIn(st.groups, |st.cells|) && forall k :: 0 <= k < |ids| ==> ids[k] < |st.groups|
    ensures Shaped(st, r) && r.count == st.count && GroupsIn(r.groups, |r.cells|)
    ensures forall c :: 0 <= c < |st.cells| ==> r.cells[c].answer == st.cells[c].answer
  {
    State(
      seq(|st.cells|, c requires 0 <= c < |st.cells| =>
        if InAny(st.groups, ids, c) then Cells.RemoveAnswerCandidate(st.cells[c], a) else st.cells[c]),
      seq(|st.groups|, j requires 0 <= j < |st.groups| =>
        if j in ids then Group(st.groups[j].members, Without(st.groups[j].remaining, a)) else st.groups[j]),
      st.count)
  }

  /**
   * `Solver::remove_group_answer_candidate`: every group with a member at `pos` drops `a`
   * from its list and from the candidates of all its members.
   */
  function Eliminate(st: State, pos: Position, a: nat): (r: State)
    requires GroupsIn(st.groups, |st.cells|)
    ensures Shaped(st, r) && r.count == st.count && GroupsIn(r.groups, |r.cells|)
    ensures forall c :: 0 <= c < |st.cells| ==> r.cells[c].answer == st.cells[c].answer
  {
    EliminateIn(st, FindGroups(st.groups, st.cells, pos), a)
  }

  /** Handling one more group extends the elimination by that group's removal. */
  lemma EliminateStep(st: State, targets: seq<nat>, t: nat, a: nat,
                      cells: seq<Cell>, groups: seq<Group>, g': Group, cells': seq<Cell>)
    requires GroupsIn(st.groups, |st.cells|) && forall k :: 0 <= k < |targets| ==> targets[k] < |st.groups|
    requires t < |targets| && State(cells, groups, st.count) == EliminateIn(st, targets[..t], a)
    requires g' == Group(groups[targets[t]].members, Without(groups[targets[t]].remaining, a))
    requires |cells'| == |cells|
    requires forall c :: 0 <= c < |cells| ==>
      cells'[c] == if c in groups[targets[t]].members then Cells.RemoveAnswerCandidate(cells[c], a) else cells[c]
    ensures EliminateIn(st, targets[..t + 1], a) == State(cells', groups[targets[t] := g'], st.count)
  {
    var ids, j := targets[..t], targets[t];
    assert targets[..t + 1] == ids + [j];
    var r' := EliminateIn(st, ids + [j], a);
    assert (ids + [j])[..|ids|] == ids;
    forall c | 0 <= c < |st.cells| ensures r'.cells[c] == cells'[c] {
      if InAny(st.groups, ids, c) && c in st.groups[j].members {
        WithoutTwice(st.cells[c].candidates, a);
      }
    }
    forall k | 0 <= k < |st.groups| ensures r'.groups[k] == groups[j := g'][k] {
      if k == j && j in ids {
        WithoutTwice(st.groups[j].remaining, a);
      }
    }
  }

  /** Handling all the groups with a member at `pos` is the elimination. */
  lemma EliminateDone(st: State, pos: Position, a: nat, targets: seq<nat>)
    requires GroupsIn(st.groups, |st.cells|) && targets == FindGroups(st.groups, st.cells, pos)
    ensures EliminateIn(st, targets[..|targets|], a) == Eliminate(st, pos, a)
  {
    assert targets[..|targets|] == targets;
  }

  /**
   * A state whose candidate lists and group lists only lost entries, with the same answers,
   * positions, members and count, is consistent when the original is.
   */
  lemma ShrinkKeeps(s: GameSetting, st: State, st': State)
    requires ConsistentState(s, st) && Shaped(st, st') && st'.count == st.count
    requires forall c :: 0 <= c < |st.cells| ==> st'.cells[c].answer == st.cells[c].answer
    requires forall c, v :: 0 <= c < |st.cells| && v in st'.cells[c].candidates ==> v in st.cells[c].candidates
    requires forall j :: 0 <= j < |st.groups| ==> NoDup(st'.groups[j].remaining)
    requires forall j, v :: 0 <= j < |st.groups| && v in st'.groups[j].remaining ==> v in st.groups[j].remaining
    ensures ConsistentState(s, st')
  {
    var side := SideSize(s);
    forall c | 0 <= c < |st'.cells| ensures CellOk(st'.cells[c], side) {
      assert CellOk(st.cells[c], side);
      if st'.cells[c].candidates != [] {
        assert st'.cells[c].candidates[0] in st'.cells[c].candidates;
      }
    }
    forall j | 0 <= j < |st'.groups| ensures GroupOk(st'.groups[j], st'.cells, side) {
      assert GroupOk(st.groups[j], st.cells, side);
      GroupOkSameAnswers(st.groups[j], st.cells, st'.cells, side);
    }
    AnsweredCountSame(st.cells, st'.cells);
    assert DistinctPositions(st'.cells) by {
      forall x, y | 0 <= x < y < |st'.cells| ensures st'.cells[x].pos != st'.cells[y].pos {
        assert st'.cells[x].pos == st.cells[x].pos && st'.cells[y].pos == st.cells[y].pos;
      }
    }
  }

  /** Elimination keeps the game consistent. */
  lemma EliminateKeeps(s: GameSetting, st: State, pos: Position, a: nat)
    requires ConsistentState(s, st)
    ensures GroupsIn(st.groups, |st.cells|)
    ensures ConsistentState(s, Eliminate(st, pos, a))
  {
    ConsistentGroupsIn(s, st.cells, st.groups, st.count);
    var st' := Eliminate(st, pos, a);
    forall c | 0 <= c < |st.cells| ensures forall v :: v in st'.cells[c].candidates ==> v in st.cells[c].candidates {
      WithoutMembers(st.cells[c].candidates, a);
    }
    forall j | 0 <= j < |st.groups|
      ensures NoDup(st'.groups[j].remaining)
      ensures forall v :: v in st'.groups[j].remaining ==> v in st.groups[j].remaining
    {
      assert GroupOk(st.groups[j], st.cells, SideSize(s));
      WithoutMembers(st.groups[j].remaining, a);
      WithoutNoDup(st.groups[j].remaining, a);
    }
    ShrinkKeeps(s, st, st');
  }

  /**
   * After the elimination no group with a member at `pos` lists `a`, and no member of such a
   * group holds `a` as a candidate; everything else about the cells stays.
   */
  lemma EliminateEffect(st: State, pos: Position, a: nat, j: nat, c: nat)
    requires GroupsIn(st.groups, |st.cells|) && j < |st.groups| && c < |st.cells|
    requires HasCellAt(st.groups[j], st.cells, pos)
    ensures var r := Eliminate(st, pos, a);
      (forall v :: v in r.groups[j].remaining <==> v in st.groups[j].remaining && v != a) &&
      (c in st.groups[j].members ==>
        forall v :: v in r.cells[c].candidates <==> v in st.cells[c].candidates && v != a) &&
      r.cells[c].answer == st.cells[c].answer
  {
    var ids := FindGroups(st.groups, st.cells, pos);
    WithoutMembers(st.groups[j].remaining, a);
    WithoutMembers(st.cells[c].candidates, a);
    if c in st.groups[j].members {
      InAnyHas(st.groups, ids, j, c);
    }
  }

  /** A member of one of the groups `ids` is in some group of `ids`. */
  lemma {:induction false} InAnyHas(groups: seq<Group>, ids: seq<nat>, j: nat, c: nat)
    requires forall k :: 0 <= k < |ids| ==> ids[k] < |groups|
    requires j in ids && c in groups[j].members
    ensures InAny(groups, ids, c)
  {
    var n := |ids| - 1;
    if ids[n] != j {
      assert ids == ids[..n] + [ids[n]];
      InAnyHas(groups, ids[..n], j, c);
    }
  }

  // ---------------------------------------------------------------- set_answer and the answer loops

  /** `Solver::set_answer`: the game's own answer, then the elimination around `pos`. */
  function SolverAnswer(st: State, pos: Position, a: nat): (r: State)
    requires GroupsIn(st.groups, |st.cells|) && FindCell(st.cells, pos).Some?
    ensures Shaped(st, r) && GroupsIn(r.groups, |r.cells|) && r.count >= st.count
    ensures KeepsAnswers(st.cells, r.cells)
  {
    var mid := GameAnswer(st, FindCell(st.cells, pos).value, a);
    Eliminate(mid, pos, a)
  }

  /**
   * `Solver::set_answer(pos, a)` keeps a consistent game consistent, and the cell at `pos`
   * ends up answered: with `a`, unless it already was.
   */
  lemma SolverAnswerKeeps(s: GameSetting, st: State, pos: Position, a: nat)
    requires ConsistentState(s, st) && FindCell(st.cells, pos).Some? && 1 <= a <= SideSize(s)
    ensures GroupsIn(st.groups, |st.cells|)
    ensures var i := FindCell(st.cells, pos).value;
      var r := SolverAnswer(st, pos, a);
      ConsistentState(s, r) &&
      r.cells[i].answer == (if st.cells[i].answer.Some? then st.cells[i].answer else Some(a))
  {
    ConsistentGroupsIn(s, st.cells, st.groups, st.count);
    var i := FindCell(st.cells, pos).value;
    GameAnswerKeeps(s, st, i, a);
    EliminateKeeps(s, GameAnswer(st, i, a), pos, a);
  }

  /**
   * After `Solver::set_answer(pos, a)` no group of the cell at `pos` lists `a`, and no cell
   * sharing such a group holds `a` as a candidate.
   */
  lemma SolverAnswerEffect(s: GameSetting, st: State, pos: Position, a: nat, j: nat, c: nat)
    requires ConsistentState(s, st) && FindCell(st.cells, pos).Some? && 1 <= a <= SideSize(s)
    requires j < |st.groups| && c < |st.cells|
    ensures GroupsIn(st.groups, |st.cells|)
    ensures var i := FindCell(st.cells, pos).value;
      var r := SolverAnswer(st, pos, a);
      (i in st.groups[j].members ==> a !in r.groups[j].remaining) &&
      (i in st.groups[j].members && c in st.groups[j].members ==> a !in r.cells[c].candidates)
  {
    ConsistentGroupsIn(s, st.cells, st.groups, st.count);
    var i := FindCell(st.cells, pos).value;
    var mid := GameAnswer(st, i, a);
    GameAnswerKeeps(s, st, i, a);
    if i in st.groups[j].members {
      assert IdsIn(mid.groups[j].members, |mid.cells|);
      HasCellAtMember(mid.groups[j], mid.cells, i);
      EliminateEffect(mid, pos, a, j, c);
    }
  }

  /** Every entry names the position of a cell. */
  predicate Located(cells: seq<Cell>, items: seq<(Position, nat)>) {
    forall k :: 0 <= k < |items| ==> FindCell(cells, items[k].0).Some?
  }

  /** Every entry names the position of a cell and a symbol of the alphabet. */
  predicate Answerable(s: GameSetting, cells: seq<Cell>, items: seq<(Position, nat)>) {
    Usable(s) && Located(cells, items) && forall k :: 0 <= k < |items| ==> 1 <= items[k].1 <= SideSize(s)
  }

  /** The entries answered one after the other with `Solver::set_answer`. */
  function ApplyAll(st: State, items: seq<(Position, nat)>): (r: State)
    requires GroupsIn(st.groups, |st.cells|) && Located(st.cells, items)
    ensures Shaped(st, r) && GroupsIn(r.groups, |r.cells|) && r.count >= st.count
    ensures KeepsAnswers(st.cells, r.cells)
  {
    if items == [] then st
    else
      var n := |items| - 1;
      assert Located(st.cells, items[..n]) by {
        forall k | 0 <= k < n ensures FindCell(st.cells, items[..n][k].0).Some? {
          assert items[..n][k] == items[k];
        }
      }
      var mid := ApplyAll(st, items[..n]);
      FindCellPositions(st.cells, mid.cells, items[n].0);
      SolverAnswer(mid, items[n].0, items[n].1)
  }

  /** Answering entries that name cells and symbols keeps the game consistent. */
  lemma {:induction false} ApplyAllKeeps(s: GameSetting, st: State, items: seq<(Position, nat)>)
    requires ConsistentState(s, st) && Answerable(s, st.cells, items)
    ensures GroupsIn(st.groups, |st.cells|)
    ensures ConsistentState(s, ApplyAll(st, items))
  {
    ConsistentGroupsIn(s, st.cells, st.groups, st.count);
    if items != [] {
      var n := |items| - 1;
      assert Answerable(s, st.cells, items[..n]) by {
        forall k | 0 <= k < n ensures items[..n][k] == items[k] {
        }
      }
      ApplyAllKeeps(s, st, items[..n]);
      var mid := ApplyAll(st, items[..n]);
      FindCellPositions(st.cells, mid.cells, items[n].0);
      SolverAnswerKeeps(s, mid, items[n].0, items[n].1);
    }
  }

  // ---------------------------------------------------------------- the singles

  /** The naked singles of a round: each cell with exactly one candidate, with it, in cell order. */
  function NakedSingles(cells: seq<Cell>): seq<(Position, nat)> {
    if cells == [] then []
    else
      var n := |cells| - 1;
      NakedSingles(cells[..n]) + match Cells.GetLonely(cells[n]) case Some(v) => [(cells[n].pos, v)] case None => []
  }

  /** An entry is a naked single exactly when some cell at its position has its symbol as sole candidate. */
  lemma {:induction false} NakedSinglesMembers(cells: seq<Cell>)
    ensures forall e :: e in NakedSingles(cells) <==>
      exists i :: 0 <= i < |cells| && cells[i].pos == e.0 && cells[i].candidates == [e.1]
  {
    if cells != [] {
      var n := |cells| - 1;
      NakedSinglesMembers(cells[..n]);
      assert cells == cells[..n] + [cells[n]];
      forall e: (Position, nat) ensures e in NakedSingles(cells) <==>
        exists i :: 0 <= i < |cells| && cells[i].pos == e.0 && cells[i].candidates == [e.1]
      {
        NakedSingleStep(cells[..n], cells[n], e);
      }
    }
  }

  /** One more cell: an entry is a naked single of `init + [last]` when it is one of `init` or of `last`. */
  lemma NakedSingleStep(init: seq<Cell>, last: Cell, e: (Position, nat))
    requires e in NakedSingles(init) <==> exists i :: 0 <= i < |init| && init[i].pos == e.0 && init[i].candidates == [e.1]
    ensures e in NakedSingles(init + [last]) <==>
      exists i :: 0 <= i < |init + [last]| && (init + [last])[i].pos == e.0 && (init + [last])[i].candidates == [e.1]
  {
    var cells := init + [last];
    assert cells[..|init|] == init;
    assert e in NakedSingles(cells) <==> e in NakedSingles(init) || (last.pos == e.0 && last.candidates == [e.1]);
    if exists i :: 0 <= i < |cells| && cells[i].pos == e.0 && cells[i].candidates == [e.1] {
      var i :| 0 <= i < |cells| && cells[i].pos == e.0 && cells[i].candidates == [e.1];
      if i < |init| {
        assert cells[i] == init[i];
      }
    }
    if e in NakedSingles(init) {
      var i :| 0 <= i < |init| && init[i].pos == e.0 && init[i].candidates == [e.1];
      assert cells[i] == init[i];
    }
  }

  /** The naked singles of a consistent game name cells and symbols of the alphabet. */
  lemma NakedSinglesAnswerable(s: GameSetting, st: State)
    requires ConsistentState(s, st)
    ensures Answerable(s, st.cells, NakedSingles(st.cells))
  {
    var items := NakedSingles(st.cells);
    NakedSinglesMembers(st.cells);
    forall k | 0 <= k < |items| ensures FindCell(st.cells, items[k].0).Some? && 1 <= items[k].1 <= SideSize(s) {
      assert items[k] in items;
      var i :| 0 <= i < |st.cells| && st.cells[i].pos == items[k].0 && st.cells[i].candidates == [items[k].1];
      assert CellOk(st.cells[i], SideSize(s));
      assert items[k].1 in st.cells[i].candidates;
    }
  }

  /** The hidden singles of all groups, group after group (the collection loop of `fill_lonely`). */
  function AllLonelies(groups: seq<Group>, cells: seq<Cell>): seq<(Position, nat)>
    requires GroupsIn(groups, |cells|)
  {
    if groups == [] then []
    else
      var n := |groups| - 1;
      assert GroupsIn(groups[..n], |cells|) by {
        forall j | 0 <= j < n ensures groups[..n][j] == groups[j] {
        }
      }
      AllLonelies(groups[..n], cells) + Lonelies(groups[n].remaining, groups[n].members, cells)
  }

  /** The hidden singles of a consistent game name cells and symbols of the alphabet. */
  lemma {:induction false} AllLoneliesAnswerable(s: GameSetting, st: State, groups: seq<Group>)
    requires ConsistentState(s, st) && GroupsIn(groups, |st.cells|)
    requires forall j :: 0 <= j < |groups| ==> GroupOk(groups[j], st.cells, SideSize(s))
    ensures Answerable(s, st.cells, AllLonelies(groups, st.cells))
  {
    if groups != [] {
      var n := |groups| - 1;
      var g := groups[n];
      assert GroupsIn(groups[..n], |st.cells|) by {
        forall j | 0 <= j < n ensures groups[..n][j] == groups[j] {
        }
      }
      AllLoneliesAnswerable(s, st, groups[..n]);
      var front := AllLonelies(groups[..n], st.cells);
      var last := Lonelies(g.remaining, g.members, st.cells);
      assert GroupOk(g, st.cells, SideSize(s));
      LoneliesMembers(g.remaining, g.members, st.cells);
      forall k | 0 <= k < |last| ensures FindCell(st.cells, last[k].0).Some? && 1 <= last[k].1 <= SideSize(s) {
        assert last[k] in last;
        var m :| 0 <= m < |g.members| && OnlyHolder(g.members, st.cells, last[k].1, 0, m) &&
          st.cells[g.members[m]].pos == last[k].0;
      }
      AnswerableAppend(s, st.cells, front, last);
    }
  }

  lemma AnswerableAppend(s: GameSetting, cells: seq<Cell>, xs: seq<(Position, nat)>, ys: seq<(Position, nat)>)
    requires Answerable(s, cells, xs) && Answerable(s, cells, ys)
    ensures Answerable(s, cells, xs + ys)
  {
    forall k | 0 <= k < |xs + ys| ensures FindCell(cells, (xs + ys)[k].0).Some? && 1 <= (xs + ys)[k].1 <= SideSize(s) {
      if k >= |xs| {
        assert (xs + ys)[k] == ys[k - |xs|];
      }
    }
  }

  // ---------------------------------------------------------------- what a round achieves

  lemma LocatedShaped(cells: seq<Cell>, cells': seq<Cell>, items: seq<(Position, nat)>)
    requires Located(cells, items)
    requires |cells'| == |cells| && forall c :: 0 <= c < |cells| ==> cells'[c].pos == cells[c].pos
    ensures Located(cells', items)
  {
    forall k | 0 <= k < |items| ensures FindCell(cells', items[k].0).Some? {
      FindCellPositions(cells, cells', items[k].0);
    }
  }

  lemma LocatedSplit(cells: seq<Cell>, xs: seq<(Position, nat)>, ys: seq<(Position, nat)>)
    ensures Located(cells, xs + ys) <==> Located(cells, xs) && Located(cells, ys)
  {
    if Located(cells, xs + ys) {
      forall k | 0 <= k < |ys| ensures FindCell(cells, ys[k].0).Some? {
        assert ys[k] == (xs + ys)[|xs| + k];
      }
      forall k | 0 <= k < |xs| ensures FindCell(cells, xs[k].0).Some? {
        assert xs[k] == (xs + ys)[k];
      }
    }
    if Located(cells, xs) && Located(cells, ys) {
      forall k | 0 <= k < |xs + ys| ensures FindCell(cells, (xs + ys)[k].0).Some? {
        if k >= |xs| {
          assert (xs + ys)[k] == ys[k - |xs|];
        }
      }
    }
  }

  lemma LocatedPrefix(cells: seq<Cell>, items: seq<(Position, nat)>, k: nat)
    requires Located(cells, items) && k <= |items|
    ensures Located(cells, items[..k])
  {
    forall m | 0 <= m < k ensures items[..k][m] == items[m] {
    }
  }

  /** One unfolding of `ApplyAll`: the last entry is answered after all the others. */
  lemma ApplyAllLast(st: State, items: seq<(Position, nat)>)
    requires GroupsIn(st.groups, |st.cells|) && Located(st.cells, items) && items != []
    ensures var n := |items| - 1;
      Located(st.cells, items[..n]) && FindCell(ApplyAll(st, items[..n]).cells, items[n].0).Some? &&
      ApplyAll(st, items) == SolverAnswer(ApplyAll(st, items[..n]), items[n].0, items[n].1)
  {
    var n := |items| - 1;
    LocatedPrefix(st.cells, items, n);
    FindCellPositions(st.cells, ApplyAll(st, items[..n]).cells, items[n].0);
  }

  /** Answering two lists one after the other is answering their concatenation. */
  lemma {:induction false} ApplyAllAppend(st: State, xs: seq<(Position, nat)>, ys: seq<(Position, nat)>)
    requires GroupsIn(st.groups, |st.cells|) && Located(st.cells, xs) && Located(st.cells, ys)
    ensures Located(st.cells, xs + ys) && Located(ApplyAll(st, xs).cells, ys)
    ensures ApplyAll(st, xs + ys) == ApplyAll(ApplyAll(st, xs), ys)
    decreases |ys|
  {
    LocatedSplit(st.cells, xs, ys);
    LocatedShaped(st.cells, ApplyAll(st, xs).cells, ys);
    if ys == [] {
      assert xs + ys == xs;
    } else {
      var n := |ys| - 1;
      assert (xs + ys)[..|xs + ys| - 1] == xs + ys[..n];
      assert (xs + ys)[|xs + ys| - 1] == ys[n];
      LocatedPrefix(st.cells, ys, n);
      ApplyAllAppend(st, xs, ys[..n]);
      ApplyAllLast(st, xs + ys);
      ApplyAllLast(ApplyAll(st, xs), ys);
    }
  }

  /** Entries at other positions leave the answer of cell `c` as it is. */
  lemma {:induction false} ApplyAllElsewhere(st: State, items: seq<(Position, nat)>, c: nat)
    requires GroupsIn(st.groups, |st.cells|) && Located(st.cells, items)
    requires DistinctPositions(st.cells) && c < |st.cells|
    requires forall k :: 0 <= k < |items| ==> items[k].0 != st.cells[c].pos
    ensures ApplyAll(st, items).cells[c].answer == st.cells[c].answer
  {
    if items != [] {
      var n := |items| - 1;
      var init, e := items[..n], items[n];
      assert Located(st.cells, init) && FindCell(st.cells, e.0).Some? by {
        LocatedPrefix(st.cells, items, n);
      }
      assert forall k :: 0 <= k < |init| ==> init[k].0 != st.cells[c].pos;
      ApplyAllElsewhere(st, init, c);
      ApplyAllLastElsewhere(st, init, e, c);
      SplitLast(items);
    }
  }

  lemma ApplyAllLastElsewhere(st: State, xs: seq<(Position, nat)>, e: (Position, nat), c: nat)
    requires GroupsIn(st.groups, |st.cells|) && Located(st.cells, xs) && FindCell(st.cells, e.0).Some?
    requires c < |st.cells| && e.0 != st.cells[c].pos
    ensures Located(st.cells, xs + [e])
    ensures ApplyAll(st, xs + [e]).cells[c].answer == ApplyAll(st, xs).cells[c].answer
  {
    LocatedSplit(st.cells, xs, [e]);
    ApplyAllLast(st, xs + [e]);
    assert (xs + [e])[..|xs|] == xs;
    SolverAnswerElsewhere(ApplyAll(st, xs), e.0, e.1, c);
  }

  /** `Solver::set_answer` at one position leaves the answers of cells elsewhere alone. */
  lemma SolverAnswerElsewhere(st: State, pos: Position, a: nat, c: nat)
    requires GroupsIn(st.groups, |st.cells|) && FindCell(st.cells, pos).Some?
    requires c < |st.cells| && st.cells[c].pos != pos
    ensures SolverAnswer(st, pos, a).cells[c].answer == st.cells[c].answer
  {
    var mid := GameAnswer(st, FindCell(st.cells, pos).value, a);
    assert mid.cells[c] == st.cells[c];
  }

  /** After answering the entries, the cell named by each of them is answered. */
  lemma {:induction false} ApplyAllAnswers(s: GameSetting, st: State, items: seq<(Position, nat)>, k: nat)
    requires ConsistentState(s, st) && Answerable(s, st.cells, items) && k < |items|
    ensures GroupsIn(st.groups, |st.cells|)
    ensures ApplyAll(st, items).cells[FindCell(st.cells, items[k].0).value].answer.Some?
  {
    ConsistentGroupsIn(s, st.cells, st.groups, st.count);
    var n := |items| - 1;
    AnswerablePrefix(s, st.cells, items, n);
    ApplyAllKeeps(s, st, items[..n]);
    var mid := ApplyAll(st, items[..n]);
    if k == n {
      FindCellPositions(st.cells, mid.cells, items[n].0);
      SolverAnswerKeeps(s, mid, items[n].0, items[n].1);
    } else {
      assert items[..n][k] == items[k];
      ApplyAllAnswers(s, st, items[..n], k);
      FindCellPositions(st.cells, mid.cells, items[n].0);
    }
  }

  /**
   * An unanswered cell named by exactly one entry of a list takes that entry's symbol:
   * the entries before it leave it unanswered, and the ones after it cannot touch it.
   */
  lemma ApplyAllOnce(s: GameSetting, st: State, before: seq<(Position, nat)>, e: (Position, nat),
                     after: seq<(Position, nat)>, c: nat)
    requires ConsistentState(s, st) && Answerable(s, st.cells, before + [e] + after)
    requires c < |st.cells| && st.cells[c].pos == e.0 && st.cells[c].answer.None?
    requires forall k :: 0 <= k < |before| ==> before[k].0 != e.0
    requires forall k :: 0 <= k < |after| ==> after[k].0 != e.0
    ensures GroupsIn(st.groups, |st.cells|)
    ensures ApplyAll(st, before + [e] + after).cells[c].answer == Some(e.1)
  {
    ConsistentGroupsIn(s, st.cells, st.groups, st.count);
    var items := before + [e] + after;
    AnswerablePrefix(s, st.cells, items, |before| + 1);
    assert items[..|before| + 1] == before + [e];
    AnswerablePrefix(s, st.cells, before + [e], |before|);
    assert (before + [e])[..|before|] == before;
    LocatedSplit(st.cells, before + [e], after);
    ApplyAllAppend(st, before + [e], after);
    ApplyAllLast(st, before + [e]);
    ApplyAllElsewhere(st, before, c);
    ApplyAllKeeps(s, st, before);
    var mid := ApplyAll(st, before);
    SolverAnswerKeeps(s, mid, e.0, e.1);
    FindOwnCell(mid.cells, c);
    var done := SolverAnswer(mid, e.0, e.1);
    ApplyAllElsewhere(done, after, c);
  }

  /**
   * An unanswered cell takes the symbol of the first entry that names it: the entries before
   * it leave the cell unanswered, and once answered a cell keeps its answer.
   */
  lemma ApplyAllFirst(s: GameSetting, st: State, items: seq<(Position, nat)>, k: nat, c: nat)
    requires ConsistentState(s, st) && Answerable(s, st.cells, items) && k < |items|
    requires c < |st.cells| && st.cells[c].pos == items[k].0 && st.cells[c].answer.None?
    requires forall m :: 0 <= m < k ==> items[m].0 != items[k].0
    ensures GroupsIn(st.groups, |st.cells|)
    ensures ApplyAll(st, items).cells[c].answer == Some(items[k].1)
  {
    ConsistentGroupsIn(s, st.cells, st.groups, st.count);
    var front, after := items[..k + 1], items[k + 1..];
    assert items == front + after;
    AnswerablePrefix(s, st.cells, items, k + 1);
    assert Located(st.cells, after) by {
      forall m | 0 <= m < |after| ensures FindCell(st.cells, after[m].0).Some? {
        assert after[m] == items[k + 1 + m];
      }
    }
    ApplyAllUpTo(s, st, front, c);
    ApplyAllAppend(st, front, after);
  }

  /** The last entry of the list is the first to name cell `c`, so it answers it. */
  lemma ApplyAllUpTo(s: GameSetting, st: State, front: seq<(Position, nat)>, c: nat)
    requires ConsistentState(s, st) && Answerable(s, st.cells, front) && front != []
    requires c < |st.cells| && st.cells[c].pos == front[|front| - 1].0 && st.cells[c].answer.None?
    requires forall m :: 0 <= m < |front| - 1 ==> front[m].0 != st.cells[c].pos
    ensures GroupsIn(st.groups, |st.cells|)
    ensures ApplyAll(st, front).cells[c].answer == Some(front[|front| - 1].1)
  {
    ConsistentGroupsIn(s, st.cells, st.groups, st.count);
    var n := |front| - 1;
    var before, e := front[..n], front[n];
    AnswerablePrefix(s, st.cells, front, n);
    ApplyAllLast(st, front);
    ApplyAllElsewhere(st, before, c);
    ApplyAllKeeps(s, st, before);
    var mid := ApplyAll(st, before);
    SolverAnswerKeeps(s, mid, e.0, e.1);
    FindOwnCell(mid.cells, c);
  }

  /** The first entry of a list that names position `p`. */
  lemma {:induction false} FirstNaming(items: seq<(Position, nat)>, p: Position, j: nat) returns (k: nat)
    requires j < |items| && items[j].0 == p
    ensures k <= j && items[k].0 == p && forall m :: 0 <= m < k ==> items[m].0 != p
    decreases j
  {
    if exists m :: 0 <= m < j && items[m].0 == p {
      var m :| 0 <= m < j && items[m].0 == p;
      k := FirstNaming(items, p, m);
    } else {
      k := j;
    }
  }

  lemma {:induction false} NakedSinglesAppend(xs: seq<Cell>, ys: seq<Cell>)
    ensures NakedSingles(xs + ys) == NakedSingles(xs) + NakedSingles(ys)
    decreases |ys|
  {
    if ys == [] {
      assert xs + ys == xs;
    } else {
      var n := |ys| - 1;
      assert (xs + ys)[..|xs + ys| - 1] == xs + ys[..n];
      NakedSinglesAppend(xs, ys[..n]);
    }
  }

  /** The naked singles of the arena, split around a cell whose only candidate is `v`. */
  lemma NakedSinglesAround(cells: seq<Cell>, c: nat, v: nat)
    requires c < |cells| && cells[c].candidates == [v]
    ensures NakedSingles(cells) == NakedSingles(cells[..c]) + [(cells[c].pos, v)] + NakedSingles(cells[c + 1..])
  {
    assert cells == cells[..c + 1] + cells[c + 1..];
    assert cells[..c + 1][..c] == cells[..c];
    NakedSinglesAppend(cells[..c + 1], cells[c + 1..]);
  }

  /** Every naked single of a slice of the arena names a position of that slice. */
  lemma NakedSinglesWithin(cells: seq<Cell>, lo: nat, hi: nat, e: (Position, nat))
    requires lo <= hi <= |cells| && e in NakedSingles(cells[lo..hi])
    ensures exists i :: lo <= i < hi && cells[i].pos == e.0
  {
    NakedSinglesMembers(cells[lo..hi]);
    var i :| 0 <= i < hi - lo && cells[lo..hi][i].pos == e.0 && cells[lo..hi][i].candidates == [e.1];
    assert cells[lo..hi][i] == cells[lo + i];
  }

  /**
   * The naked-singles step of a round answers every cell whose only candidate is `v` with
   * exactly `v`: the list names each cell at most once, so no other entry answers it.
   */
  lemma NakedSinglesAnswered(s: GameSetting, st: State, c: nat, v: nat)
    requires ConsistentState(s, st) && c < |st.cells| && st.cells[c].candidates == [v]
    ensures GroupsIn(st.groups, |st.cells|) && Answerable(s, st.cells, NakedSingles(st.cells))
    ensures ApplyAll(st, NakedSingles(st.cells)).cells[c].answer == Some(v)
  {
    var cells := st.cells;
    NakedSinglesAnswerable(s, st);
    assert CellOk(cells[c], SideSize(s));
    var before, after := NakedSingles(cells[..c]), NakedSingles(cells[c + 1..]);
    NakedSinglesAround(cells, c, v);
    forall k | 0 <= k < |before| ensures before[k].0 != cells[c].pos {
      assert cells[..c] == cells[0..c];
      NakedSinglesWithin(cells, 0, c, before[k]);
    }
    forall k | 0 <= k < |after| ensures after[k].0 != cells[c].pos {
      assert cells[c + 1..] == cells[c + 1..|cells|];
      NakedSinglesWithin(cells, c + 1, |cells|, after[k]);
    }
    ApplyAllOnce(s, st, before, (cells[c].pos, v), after, c);
  }

  lemma DistinctShaped(st: State, st': State)
    requires DistinctPositions(st.cells) && Shaped(st, st')
    ensures DistinctPositions(st'.cells)
  {
    forall x, y | 0 <= x < y < |st'.cells| ensures st'.cells[x].pos != st'.cells[y].pos {
      assert st'.cells[x].pos == st.cells[x].pos && st'.cells[y].pos == st.cells[y].pos;
    }
  }

  /** A hidden single of a group is among the entries `fill_lonely` collects. */
  lemma {:induction false} AllLoneliesHas(groups: seq<Group>, cells: seq<Cell>, j: nat, e: (Position, nat))
    requires GroupsIn(groups, |cells|) && j < |groups|
    requires e in Lonelies(groups[j].remaining, groups[j].members, cells)
    ensures e in AllLonelies(groups, cells)
  {
    var n := |groups| - 1;
    if j < n {
      assert groups[..n][j] == groups[j];
      AllLoneliesHas(groups[..n], cells, j, e);
    }
  }

  /** Every entry `fill_lonely` collects is a hidden single of one of the groups. */
  lemma {:induction false} AllLoneliesFrom(groups: seq<Group>, cells: seq<Cell>, e: (Position, nat))
    requires GroupsIn(groups, |cells|) && e in AllLonelies(groups, cells)
    ensures exists j :: 0 <= j < |groups| && e in Lonelies(groups[j].remaining, groups[j].members, cells)
  {
    var n := |groups| - 1;
    assert GroupsIn(groups[..n], |cells|) by {
      forall j | 0 <= j < n ensures groups[..n][j] == groups[j] {
      }
    }
    if e !in Lonelies(groups[n].remaining, groups[n].members, cells) {
      AllLoneliesFrom(groups[..n], cells, e);
      var j :| 0 <= j < n && e in Lonelies(groups[..n][j].remaining, groups[..n][j].members, cells);
      assert groups[..n][j] == groups[j];
    }
  }

  /**
   * `fill_lonely` answers every cell that is the only member of a group to hold one of the
   * group's remaining symbols. The cell takes the symbol of the first collected entry that
   * names it, so it takes `v` whenever every entry naming it carries `v`.
   */
  lemma FillLonelyAnswers(s: GameSetting, st: State, j: nat, m: nat, v: nat)
    requires ConsistentState(s, st) && j < |st.groups|
    requires m < |st.groups[j].members| && v in st.groups[j].remaining
    requires IdsIn(st.groups[j].members, |st.cells|) && OnlyHolder(st.groups[j].members, st.cells, v, 0, m)
    ensures GroupsIn(st.groups, |st.cells|) && Answerable(s, st.cells, AllLonelies(st.groups, st.cells))
    ensures ApplyAll(st, AllLonelies(st.groups, st.cells)).cells[st.groups[j].members[m]].answer.Some?
    ensures var items := AllLonelies(st.groups, st.cells);
      var c := st.groups[j].members[m];
      exists k :: 0 <= k < |items| && items[k].0 == st.cells[c].pos &&
        (forall x :: 0 <= x < k ==> items[x].0 != st.cells[c].pos) &&
        ApplyAll(st, items).cells[c].answer == Some(items[k].1)
    ensures var items := AllLonelies(st.groups, st.cells);
      var c := st.groups[j].members[m];
      (forall k :: 0 <= k < |items| && items[k].0 == st.cells[c].pos ==> items[k].1 == v) ==>
        ApplyAll(st, items).cells[c].answer == Some(v)
  {
    ConsistentGroupsIn(s, st.cells, st.groups, st.count);
    var g := st.groups[j];
    var c := g.members[m];
    var e := (st.cells[c].pos, v);
    LoneliesMembers(g.remaining, g.members, st.cells);
    assert e in Lonelies(g.remaining, g.members, st.cells);
    AllLoneliesHas(st.groups, st.cells, j, e);
    var items := AllLonelies(st.groups, st.cells);
    AllLoneliesAnswerable(s, st, st.groups);
    var i :| 0 <= i < |items| && items[i] == e;
    var k := FirstNaming(items, e.0, i);
    assert CellOk(st.cells[c], SideSize(s));
    ApplyAllFirst(s, st, items, k, c);
  }

  /**
   * A cell whose only candidate is `v` and that alone holds `v` in one of its groups is
   * answered with `v` by `fill_lonely`: every entry naming it carries one of its candidates.
   */
  lemma FillLonelySingle(s: GameSetting, st: State, j: nat, m: nat, v: nat)
    requires ConsistentState(s, st) && j < |st.groups|
    requires m < |st.groups[j].members| && v in st.groups[j].remaining
    requires IdsIn(st.groups[j].members, |st.cells|) && OnlyHolder(st.groups[j].members, st.cells, v, 0, m)
    requires st.cells[st.groups[j].members[m]].candidates == [v]
    ensures GroupsIn(st.groups, |st.cells|) && Answerable(s, st.cells, AllLonelies(st.groups, st.cells))
    ensures ApplyAll(st, AllLonelies(st.groups, st.cells)).cells[st.groups[j].members[m]].answer == Some(v)
  {
    ConsistentGroupsIn(s, st.cells, st.groups, st.count);
    var c := st.groups[j].members[m];
    var items := AllLonelies(st.groups, st.cells);
    forall k | 0 <= k < |items| && items[k].0 == st.cells[c].pos ensures items[k].1 == v {
      AllLoneliesFrom(st.groups, st.cells, items[k]);
      var j' :| 0 <= j' < |st.groups| && items[k] in Lonelies(st.groups[j'].remaining, st.groups[j'].members, st.cells);
      var g := st.groups[j'];
      LoneliesMembers(g.remaining, g.members, st.cells);
      var m' :| 0 <= m' < |g.members| && OnlyHolder(g.members, st.cells, items[k].1, 0, m') &&
        st.cells[g.members[m']].pos == items[k].0;
      assert g.members[m'] == c;
    }
    FillLonelyAnswers(s, st, j, m, v);
  }

  // ---------------------------------------------------------------- the guess

  predicate HasCandidates(cells: seq<Cell>) {
    exists k :: 0 <= k < |cells| && |cells[k].candidates| > 0
  }

  /**
   * Cell `i` has candidates, no cell with candidates has fewer, and every earlier cell with
   * candidates has more: the first cell after a stable sort by candidate count once the
   * cells without candidates are dropped.
   */
  predicate FewestAt(cells: seq<Cell>, i: nat) {
    i < |cells| && |cells[i].candidates| > 0 &&
    (forall k :: 0 <= k < |cells| && |cells[k].candidates| > 0 ==> |cells[i].candidates| <= |cells[k].candidates|) &&
    (forall k :: 0 <= k < i && |cells[k].candidates| > 0 ==> |cells[i].candidates| < |cells[k].candidates|)
  }

  /** The cell `solving` guesses on. */
  function Fewest(cells: seq<Cell>): (i: nat)
    requires HasCandidates(cells)
    ensures FewestAt(cells, i)
  {
    var n := |cells| - 1;
    if !HasCandidates(cells[..n]) then
      assert forall k :: 0 <= k < n ==> cells[..n][k] == cells[k];
      n
    else
      var j := Fewest(cells[..n]);
      assert forall k :: 0 <= k < n ==> cells[..n][k] == cells[k];
      if 0 < |cells[n].candidates| < |cells[j].candidates| then n else j
  }

  /** Both relations between snapshots compose. */
  lemma ShapedTrans(a: State, b: State, c: State)
    requires Shaped(a, b) && Shaped(b, c)
    requires KeepsAnswers(a.cells, b.cells) && KeepsAnswers(b.cells, c.cells)
    ensures Shaped(a, c) && KeepsAnswers(a.cells, c.cells)
  {
  }

  // ---------------------------------------------------------------- the solver

  class Solver {
    const game: Game

    /** `Solver::new`. */
    constructor (game: Game)
      ensures this.game == game
    {
      this.game := game;
    }

    /** `Solver::remove_group_answer_candidate`, one matching group at a time. */
    method RemoveGroupAnswerCandidate(pos: Position, a: nat)
      requires game.Valid()
      modifies game
      ensures game.Valid() && Snap(game) == Eliminate(old(Snap(game)), pos, a)
    {
      ghost var st0 := Snap(game);
      ConsistentGroupsIn(game.setting, game.cells, game.groups, game.answeredCount);
      var cells, groups := game.cells, game.groups;
      var targets := FindGroups(groups, cells, pos);
      for t := 0 to |targets|
        invariant unchanged(game)
        invariant State(cells, groups, st0.count) == EliminateIn(st0, targets[..t], a)
      {
        var j := targets[t];
        var g', cells' := Groups.RemoveAnswerCandidate(groups[j], cells, a);
        EliminateStep(st0, targets, t, a, cells, groups, g', cells');
        groups := groups[j := g'];
        cells := cells';
      }
      EliminateDone(st0, pos, a, targets);
      EliminateKeeps(game.setting, st0, pos, a);
      game.cells, game.groups := cells, groups;
    }

    /** `Solver::set_answer`: the game's answer, then the elimination. */
    method SetAnswer(pos: Position, a: nat)
      requires game.Valid() && FindCell(game.cells, pos).Some? && 1 <= a <= SideSize(game.setting)
      modifies game
      ensures game.Valid() && Snap(game) == SolverAnswer(old(Snap(game)), pos, a)
    {
      game.SetAnswer(pos, a);
      RemoveGroupAnswerCandidate(pos, a);
    }

    /** The entries answered in order (the `for_each` of a round and the last loop of `fill_lonely`). */
    method SetAnswers(items: seq<(Position, nat)>)
      requires game.Valid() && Answerable(game.setting, game.cells, items)
      modifies game
      ensures game.Valid() && Snap(game) == ApplyAll(old(Snap(game)), items)
    {
      ghost var st0 := Snap(game);
      ConsistentGroupsIn(game.setting, game.cells, game.groups, game.answeredCount);
      AnswerablePrefix(game.setting, st0.cells, items, 0);
      for k := 0 to |items|
        invariant Answerable(game.setting, st0.cells, items[..k])
        invariant game.Valid() && Snap(game) == ApplyAll(st0, items[..k])
      {
        ApplyAllNext(st0, items, k);
        SetAnswer(items[k].0, items[k].1);
        AnswerablePrefix(game.setting, st0.cells, items, k + 1);
      }
      assert items[..|items|] == items;
    }

    /** `Solver::fill_lonely`: every group's hidden singles are collected first, then answered. */
    method FillLonely()
      requires game.Valid() && GroupsIn(game.groups, |game.cells|)
      modifies game
      ensures game.Valid()
      ensures Answerable(game.setting, old(game.cells), AllLonelies(old(game.groups), old(game.cells)))
      ensures Snap(game) == ApplyAll(old(Snap(game)), AllLonelies(old(game.groups), old(game.cells)))
    {
      ConsistentGroupsIn(game.setting, game.cells, game.groups, game.answeredCount);
      var groups, cells := game.groups, game.cells;
      var fillable := [];
      for j := 0 to |groups|
        invariant unchanged(game)
        invariant fillable == AllLonelies(groups[..j], cells)
      {
        var lonelies := Groups.GetLonely(groups[j], cells);
        assert groups[..j + 1][..j] == groups[..j];
        fillable := fillable + lonelies;
      }
      assert groups[..|groups|] == groups;
      AllLoneliesAnswerable(game.setting, Snap(game), groups);
      SetAnswers(fillable);
    }

    /**
     * `Solver::solving`: rounds of naked singles then hidden singles until the game is
     * Complete (a copy is returned) or Failure (None). A round that answers nothing counts as
     * a stall; on the third stall in a row the cell with the fewest candidates is guessed:
     * each candidate in order is tried on a copy solved from scratch, and the first copy
     * that is solved is returned; if none is, the result is None.
     */
    method Solving() returns (r: Option<Game>)
      requires game.Valid()
      modifies game
      decreases |game.cells| - game.answeredCount, 2
      ensures game.Valid() && Shaped(old(Snap(game)), Snap(game)) && KeepsAnswers(old(game.cells), game.cells)
      ensures r.Some? ==>
        fresh(r.value) && r.value.Valid() && r.value.setting == game.setting &&
        Shaped(old(Snap(game)), Snap(r.value)) && KeepsAnswers(old(game.cells), r.value.cells) &&
        r.value.Status() == Complete
    {
      ghost var st0 := Snap(game);
      var count := 0;
      while true
        invariant game.Valid() && Shaped(st0, Snap(game)) && KeepsAnswers(st0.cells, game.cells)
        invariant game.answeredCount >= st0.count && count <= 2
        decreases |game.cells| - game.answeredCount, 2 - count
      {
        var before := game.answeredCount;
        ghost var round := Snap(game);
        NakedSinglesAnswerable(game.setting, Snap(game));
        SetAnswers(NakedSingles(game.cells));
        ghost var mid := Snap(game);
        ConsistentGroupsIn(game.setting, game.cells, game.groups, game.answeredCount);
        FillLonely();
        ShapedTrans(round, mid, Snap(game));
        ShapedTrans(st0, round, Snap(game));
        var status := game.Status();
        if status == Complete {
          var solved := new Game.Clone(game);
          return Some(solved);
        }
        if status == Failure {
          return None;
        }
        if before == game.answeredCount {
          if count == 2 {
            ConsistentGroupsIn(game.setting, game.cells, game.groups, game.answeredCount);
            r := Guess();
            if r.Some? {
              ShapedTrans(st0, Snap(game), Snap(r.value));
            }
            return;
          }
          count := count + 1;
        } else {
          count := 0;
        }
      }
    }

    /**
     * The guess of `solving`: the cell with the fewest candidates takes each of its
     * candidates in turn on a copy of the game, which a new solver solves; the first copy
     * solved is the result. The game itself is left as it is.
     */
    method Guess() returns (r: Option<Game>)
      requires game.Valid() && GroupsIn(game.groups, |game.cells|)
      requires GameStatus(game.cells, game.groups) == GameState.Solving
      decreases |game.cells| - game.answeredCount, 1
      ensures r.Some? ==>
        fresh(r.value) && r.value.Valid() && r.value.setting == game.setting &&
        Shaped(Snap(game), Snap(r.value)) && KeepsAnswers(game.cells, r.value.cells) &&
        r.value.Status() == Complete
    {
      SolvingHasCandidate(game.setting, game.cells, game.groups, game.answeredCount);
      var i := Fewest(game.cells);
      var guesses := game.cells[i].candidates;
      GuessCell(game.setting, Snap(game), i);
      for k := 0 to |guesses| {
        assert guesses[k] in game.cells[i].candidates;
        var result := TryGuess(i, guesses[k]);
        if result.Some? {
          return result;
        }
      }
      return None;
    }

    /** One try of the guess: a copy of the game answered `a` at cell `i`, solved by a new solver. */
    method TryGuess(i: nat, a: nat) returns (r: Option<Game>)
      requires game.Valid() && i < |game.cells| && 1 <= a <= SideSize(game.setting)
      requires FindCell(game.cells, game.cells[i].pos) == Some(i)
      requires GameAnswer(Snap(game), i, a).count == game.answeredCount + 1
      decreases |game.cells| - game.answeredCount, 0
      ensures r.Some? ==>
        fresh(r.value) && r.value.Valid() && r.value.setting == game.setting &&
        Shaped(Snap(game), Snap(r.value)) && KeepsAnswers(game.cells, r.value.cells) &&
        r.value.Status() == Complete
    {
      var trial := new Game.Clone(game);
      trial.SetAnswer(game.cells[i].pos, a);
      var solver := new Solver(trial);
      r := solver.Solving();
      if r.Some? {
        ShapedTrans(Snap(game), GameAnswer(Snap(game), i, a), Snap(r.value));
      }
    }
  }

  /** The guessed cell is unanswered, found at its position, and its candidates are symbols. */
  lemma GuessCell(s: GameSetting, st: State, i: nat)
    requires ConsistentState(s, st) && FewestAt(st.cells, i)
    ensures st.cells[i].answer.None? && FindCell(st.cells, st.cells[i].pos) == Some(i)
    ensures forall v :: v in st.cells[i].candidates ==> 1 <= v <= SideSize(s)
    ensures forall v :: GameAnswer(st, i, v).count == st.count + 1
  {
    assert CellOk(st.cells[i], SideSize(s));
    FindOwnCell(st.cells, i);
  }

  /** Answering entry `k` after the first `k` entries answers the first `k + 1`. */
  lemma ApplyAllNext(st: State, items: seq<(Position, nat)>, k: nat)
    requires GroupsIn(st.groups, |st.cells|) && Located(st.cells, items) && k < |items|
    ensures Located(st.cells, items[..k]) && Located(st.cells, items[..k + 1])
    ensures FindCell(ApplyAll(st, items[..k]).cells, items[k].0).Some?
    ensures ApplyAll(st, items[..k + 1]) == SolverAnswer(ApplyAll(st, items[..k]), items[k].0, items[k].1)
  {
    LocatedPrefix(st.cells, items, k);
    LocatedPrefix(st.cells, items, k + 1);
    PrefixStep(items, k);
    ApplyAllLast(st, items[..k + 1]);
  }

  lemma AnswerablePrefix(s: GameSetting, cells: seq<Cell>, items: seq<(Position, nat)>, k: nat)
    requires Answerable(s, cells, items) && k <= |items|
    ensures Answerable(s, cells, items[..k])
  {
    forall m | 0 <= m < k ensures items[..k][m] == items[m] {
    }
  }
}
