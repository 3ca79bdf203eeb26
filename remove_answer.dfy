/**
 * Undo of an answer (`remove_answer.rs`): the cell forgets its answer, the symbol goes back
 * to the groups of the cell that no longer hold it, and every cell of those groups gets as
 * candidates the symbols that all of its own groups still list.
 */
module RemoveAnswer {
  import opened Wrappers
  import opened Setting
  import opened Lists
  import opened Cells
  import opened Groups
  import opened Board

  // ---------------------------------------------------------------- find_groups

  /** Some member of the group stands at `pos` (`cells().iter().any(|c| c.pos() == pos)`). */
  predicate HasCellAt(g: Group, cells: seq<Cell>, pos: Position)
    requires IdsIn(g.members, |cells|)
  {
    exists k :: 0 <= k < |g.members| && cells[g.members[k]].pos == pos
  }

  /** The indexes from `j` on of the groups with a member at `pos`, ascending. */
  function FindGroupsFrom(groups: seq<Group>, cells: seq<Cell>, pos: Position, j: nat): (r: seq<nat>)
    requires GroupsIn(groups, |cells|) && j <= |groups|
    ensures Increasing(r) && forall k :: 0 <= k < |r| ==> j <= r[k] < |groups|
    ensures forall x :: x in r <==> j <= x < |groups| && HasCellAt(groups[x], cells, pos)
    decreases |groups| - j
  {
    if j == |groups| then []
    else
      var rest := FindGroupsFrom(groups, cells, pos, j + 1);
      if HasCellAt(groups[j], cells, pos) then PrependBelow(j, rest); [j] + rest else rest
  }

  /** `find_groups`: the groups (by index) that have a member at `pos`, in group order. */
  function FindGroups(groups: seq<Group>, cells: seq<Cell>, pos: Position): (r: seq<nat>)
    requires GroupsIn(groups, |cells|)
    ensures Increasing(r) && forall k :: 0 <= k < |r| ==> r[k] < |groups|
    ensures forall x :: x in r <==> 0 <= x < |groups| && HasCellAt(groups[x], cells, pos)
  {
    FindGroupsFrom(groups, cells, pos, 0)
  }

  /** Only the positions of the cells matter to `find_groups`. */
  lemma {:induction false} FindGroupsFromPositions(groups: seq<Group>, cells: seq<Cell>, cells': seq<Cell>, pos: Position, j: nat)
    requires GroupsIn(groups, |cells|) && j <= |groups|
    requires |cells'| == |cells| && forall c :: 0 <= c < |cells| ==> cells'[c].pos == cells[c].pos
    ensures FindGroupsFrom(groups, cells', pos, j) == FindGroupsFrom(groups, cells, pos, j)
    decreases |groups| - j
  {
    if j < |groups| {
      FindGroupsFromPositions(groups, cells, cells', pos, j + 1);
      assert HasCellAt(groups[j], cells', pos) <==> HasCellAt(groups[j], cells, pos);
    }
  }

  /** Only the positions of the cells matter to a lookup by position. */
  lemma {:induction false} FindCellPositions(cells: seq<Cell>, cells': seq<Cell>, pos: Position)
    requires |cells'| == |cells| && forall c :: 0 <= c < |cells| ==> cells'[c].pos == cells[c].pos
    ensures FindCell(cells', pos) == FindCell(cells, pos)
  {
    if cells != [] {
      FindCellPositions(cells[1..], cells'[1..], pos);
    }
  }

  /** With distinct positions, a group has a member at the position of cell `i` exactly when `i` is a member. */
  lemma HasCellAtMember(g: Group, cells: seq<Cell>, i: nat)
    requires IdsIn(g.members, |cells|) && DistinctPositions(cells) && i < |cells|
    ensures HasCellAt(g, cells, cells[i].pos) <==> i in g.members
  {
    if HasCellAt(g, cells, cells[i].pos) {
      var k :| 0 <= k < |g.members| && cells[g.members[k]].pos == cells[i].pos;
      assert g.members[k] == i;
    }
    if i in g.members {
      var k :| 0 <= k < |g.members| && g.members[k] == i;
      assert cells[g.members[k]].pos == cells[i].pos;
    }
  }

  // ---------------------------------------------------------------- the symbols all groups hold

  /** The lists of the groups `ids`, in that order. */
  function RemainingLists(groups: seq<Group>, ids: seq<nat>): (r: seq<seq<nat>>)
    requires forall k :: 0 <= k < |ids| ==> ids[k] < |groups|
    ensures |r| == |ids| && forall k :: 0 <= k < |ids| ==> r[k] == groups[ids[k]].remaining
  {
    seq(|ids|, k requires 0 <= k < |ids| => groups[ids[k]].remaining)
  }

  function MaxOf(s: seq<nat>): (m: nat)
    ensures forall v :: v in s ==> v <= m
  {
    if s == [] then 0
    else
      var m := MaxOf(s[1..]);
      assert s == [s[0]] + s[1..];
      if s[0] > m then s[0] else m
  }

  /** The entries of `vs` that occur in the lists, all together, once per list. */
  function HeldByAll(vs: seq<nat>, lists: seq<seq<nat>>): (r: seq<nat>)
    ensures forall v :: v in r <==> v in vs && 0 < CountIn(lists, v) == |lists|
    ensures Increasing(vs) ==> Increasing(r)
  {
    if vs == [] then []
    else
      var rest := HeldByAll(vs[1..], lists);
      HeadBelowTail(vs);
      IncreasingTail(vs);
      assert vs == [vs[0]] + vs[1..];
      if 0 < CountIn(lists, vs[0]) == |lists| then
        (if Increasing(vs) then PrependBelow(vs[0], rest); [vs[0]] + rest else [vs[0]] + rest)
      else rest
  }

  /** The symbols that occur in the lists once per list, ascending. */
  function Common(lists: seq<seq<nat>>): seq<nat> {
    HeldByAll(Range(0, MaxOf(Flatten(lists)) + 1), lists)
  }

  lemma CommonMembers(lists: seq<seq<nat>>)
    ensures Increasing(Common(lists))
    ensures forall v :: v in Common(lists) <==> 0 < CountIn(lists, v) == |lists|
  {
    RangeIncreasing(0, MaxOf(Flatten(lists)) + 1);
    forall v: nat ensures v in Common(lists) <==> 0 < CountIn(lists, v) == |lists| {
      CommonMember(lists, v);
    }
  }

  lemma CommonMember(lists: seq<seq<nat>>, v: nat)
    ensures v in Common(lists) <==> 0 < CountIn(lists, v) == |lists|
  {
    var m := MaxOf(Flatten(lists));
    if 0 < CountIn(lists, v) {
      CountedBelowMax(lists, v);
      RangeAt(0, m + 1);
      assert Range(0, m + 1)[v] == v;
    }
  }

  /** A symbol that occurs in the lists is at most the largest entry of all of them. */
  lemma CountedBelowMax(lists: seq<seq<nat>>, v: nat)
    requires CountIn(lists, v) > 0
    ensures v <= MaxOf(Flatten(lists))
  {
    var f := Flatten(lists);
    FlattenCount(lists, v);
    assert v in multiset(f);
    assert v in f;
  }

  lemma RangeIncreasing(lo: nat, hi: nat)
    ensures Increasing(Range(lo, hi))
  {
    RangeAt(lo, hi);
  }

  /**
   * When there is at least one list and no list repeats a symbol, the common symbols are
   * exactly those that every list holds: the intersection of the groups' lists.
   */
  lemma CommonIsIntersection(lists: seq<seq<nat>>)
    requires |lists| > 0 && forall k :: 0 <= k < |lists| ==> NoDup(lists[k])
    ensures forall v :: v in Common(lists) <==> forall k :: 0 <= k < |lists| ==> v in lists[k]
  {
    CommonMembers(lists);
    forall v ensures CountIn(lists, v) == |lists| <==> forall k :: 0 <= k < |lists| ==> v in lists[k] {
      CountInAll(lists, v);
    }
  }

  /** The test's lists [2,3,4], [2,3,4] and [2,4] have the common symbols [2,4]. */
  lemma CommonExample(lists: seq<seq<nat>>)
    requires lists == [[2, 3, 4], [2, 3, 4], [2, 4]]
    ensures Common(lists) == [2, 4]
  {
    var r := Common(lists);
    CommonIsIntersection(lists);
    CommonMembers(lists);
    assert NoDup(lists[0]) && NoDup(lists[1]) && NoDup(lists[2]);
    assert forall v :: v in r <==> v == 2 || v == 4;
    assert Increasing([2, 4]);
    IncreasingUnique(r, [2, 4]);
  }

  /** A list whose entries all equal `x` holds `x` as often as it is long. */
  lemma {:induction false} ConstCount(t: seq<nat>, x: nat)
    requires forall k :: 0 <= k < |t| ==> t[k] == x
    ensures multiset(t)[x] == |t|
  {
    if t != [] {
      assert t == [t[0]] + t[1..];
      ConstCount(t[1..], x);
    }
  }

  /** In an ascending list, a maximal run of equal entries is all the occurrences of its value. */
  lemma RunCount(s: seq<nat>, i: nat, j: nat)
    requires Ascending(s) && i < j <= |s|
    requires forall k :: i <= k < j ==> s[k] == s[i]
    requires i == 0 || s[i - 1] < s[i]
    requires j == |s| || s[j] != s[i]
    ensures multiset(s)[s[i]] == j - i
  {
    var x := s[i];
    var before, run, after := s[..i], s[i..j], s[j..];
    assert multiset(s) == multiset(before) + multiset(run) + multiset(after) by {
      assert s == before + run + after;
    }
    assert multiset(run)[x] == j - i by {
      ConstCount(run, x);
    }
    assert multiset(before)[x] == 0 by {
      BelowRun(s, i);
    }
    assert multiset(after)[x] == 0 by {
      AboveRun(s, i, j);
    }
  }

  /** Before a run that starts above its predecessor, its value does not occur. */
  lemma BelowRun(s: seq<nat>, i: nat)
    requires Ascending(s) && i < |s| && (i == 0 || s[i - 1] < s[i])
    ensures multiset(s[..i])[s[i]] == 0
  {
    forall k | 0 <= k < i ensures s[..i][k] != s[i] {
      assert s[k] <= s[i - 1];
    }
  }

  /** After a run that its successor differs from, its value does not occur. */
  lemma AboveRun(s: seq<nat>, i: nat, j: nat)
    requires Ascending(s) && i < j <= |s| && s[j - 1] == s[i] && (j == |s| || s[j] != s[i])
    ensures multiset(s[j..])[s[i]] == 0
  {
    forall k | 0 <= k < |s| - j ensures s[j..][k] != s[i] {
      assert s[j - 1] <= s[j] <= s[j + k];
    }
  }

  /**
   * `find_answer_candidate_that_all_groups_hold`: the lists are laid end to end and sorted,
   * and of each run of equal symbols the symbol is kept when the run is as long as there
   * are lists.
   */
  method FindAnswerCandidateThatAllGroupsHold(lists: seq<seq<nat>>) returns (r: seq<nat>)
    ensures r == Common(lists)
  {
    var all := Sort(Flatten(lists));
    r := [];
    var i := 0;
    while i < |all|
      invariant 0 <= i <= |all|
      invariant Kept(all, r, i, |lists|)
    {
      r, i := ScanRun(all, r, i, |lists|);
    }
    KeptAll(lists, all, r);
  }

  /** One round of the scan: the run starting at `i` is measured and its symbol kept when it is `n` long. */
  method ScanRun(all: seq<nat>, r: seq<nat>, i: nat, n: nat) returns (r': seq<nat>, j: nat)
    requires Ascending(all) && i < |all| && Kept(all, r, i, n)
    ensures i < j <= |all| && Kept(all, r', j, n)
  {
    j := RunEnd(all, i);
    KeptStep(all, r, i, j, n);
    r' := if j - i == n then r + [all[i]] else r;
  }

  /** The end of the run of entries equal to `all[i]`: the first index after `i` holding another value. */
  method RunEnd(all: seq<nat>, i: nat) returns (j: nat)
    requires i < |all|
    ensures i < j <= |all| && (j == |all| || all[j] != all[i])
    ensures forall k :: i <= k < j ==> all[k] == all[i]
  {
    j := i + 1;
    while j < |all| && all[j] == all[i]
      invariant i < j <= |all|
      invariant forall k :: i <= k < j ==> all[k] == all[i]
    {
      j := j + 1;
    }
  }

  /**
   * The loop's invariant once the runs before `i` are scanned: `i` starts a run, `r` ascends,
   * and it holds exactly the symbols scanned so far that occur `n` times in the whole list.
   */
  ghost predicate Kept(all: seq<nat>, r: seq<nat>, i: nat, n: nat)
    requires i <= |all|
  {
    && (0 < i < |all| ==> all[i - 1] < all[i])
    && Increasing(r)
    && (forall v :: v in r ==> 0 < i && v <= all[i - 1])
    && (forall v :: v in r <==> v in all[..i] && multiset(all)[v] == n)
  }

  /** Scanning the maximal run `all[i..j]` keeps its symbol exactly when the run is `n` long. */
  lemma KeptStep(all: seq<nat>, r: seq<nat>, i: nat, j: nat, n: nat)
    requires Ascending(all) && i < j <= |all| && Kept(all, r, i, n)
    requires forall k :: i <= k < j ==> all[k] == all[i]
    requires j == |all| || all[j] != all[i]
    ensures Kept(all, if j - i == n then r + [all[i]] else r, j, n)
  {
    var r' := if j - i == n then r + [all[i]] else r;
    RunCount(all, i, j);
    KeptOrderStep(all, r, r', i, j, n);
    KeptMembersStep(all, r, r', i, j, n);
    assert 0 < j < |all| ==> all[j - 1] < all[j] by {
      if 0 < j < |all| {
        assert all[j - 1] == all[i] && all[j - 1] <= all[j];
      }
    }
  }

  /** Scanning a run keeps the kept symbols increasing and at most the run's symbol. */
  lemma KeptOrderStep(all: seq<nat>, r: seq<nat>, r': seq<nat>, i: nat, j: nat, n: nat)
    requires i < j <= |all| && (0 < i ==> all[i - 1] < all[i])
    requires forall k :: i <= k < j ==> all[k] == all[i]
    requires Increasing(r) && forall v :: v in r ==> 0 < i && v <= all[i - 1]
    requires r' == if j - i == n then r + [all[i]] else r
    ensures Increasing(r') && forall v :: v in r' ==> v <= all[j - 1]
  {
    assert all[j - 1] == all[i];
    if j - i == n {
      AppendAbove(r, all[i]);
    }
  }

  /** Scanning a run adds its symbol to the kept ones exactly when the symbol occurs `n` times. */
  lemma KeptMembersStep(all: seq<nat>, r: seq<nat>, r': seq<nat>, i: nat, j: nat, n: nat)
    requires i < j <= |all| && forall k :: i <= k < j ==> all[k] == all[i]
    requires multiset(all)[all[i]] == j - i
    requires forall v :: v in r <==> v in all[..i] && multiset(all)[v] == n
    requires r' == if j - i == n then r + [all[i]] else r
    ensures forall v :: v in r' <==> v in all[..j] && multiset(all)[v] == n
  {
    var x := all[i];
    assert all[..j] == all[..i] + all[i..j];
    forall v ensures v in all[i..j] <==> v == x {
      if v == x {
        assert all[i..j][0] == x;
      }
    }
  }

  /** Once every run is scanned, the kept symbols are the common ones. */
  lemma KeptAll(lists: seq<seq<nat>>, all: seq<nat>, r: seq<nat>)
    requires all == Sort(Flatten(lists)) && Kept(all, r, |all|, |lists|)
    ensures r == Common(lists)
  {
    assert all[..|all|] == all;
    CommonMembers(lists);
    forall v ensures v in r <==> v in Common(lists) {
      FlattenCount(lists, v);
      assert v in all <==> multiset(all)[v] > 0;
    }
    IncreasingUnique(r, Common(lists));
  }

  // ---------------------------------------------------------------- remove_answer

  /** `Group::restore_answer_candidate`: the symbol goes back at the end of the list unless a member still holds it. */
  function RestoreGroup(g: Group, cells: seq<Cell>, a: nat): Group
    requires IdsIn(g.members, |cells|)
  {
    if AnsweredIn(g, cells, a) then g else Group(g.members, g.remaining + [a])
  }

  /** The groups after the symbol `a` went back to the groups `targets`. */
  function RestoreGroups(groups: seq<Group>, cells: seq<Cell>, targets: seq<nat>, a: nat): (r: seq<Group>)
    requires GroupsIn(groups, |cells|)
    ensures |r| == |groups| && forall j :: 0 <= j < |r| ==> r[j].members == groups[j].members
    ensures GroupsIn(r, |cells|)
  {
    seq(|groups|, j requires 0 <= j < |groups| => if j in targets then RestoreGroup(groups[j], cells, a) else groups[j])
  }

  /** The positions of the members of the groups `ids`, group after group. */
  function MemberPositions(groups: seq<Group>, cells: seq<Cell>, ids: seq<nat>): seq<Position>
    requires GroupsIn(groups, |cells|) && forall k :: 0 <= k < |ids| ==> ids[k] < |groups|
  {
    if ids == [] then []
    else
      var g := groups[ids[0]];
      seq(|g.members|, k requires 0 <= k < |g.members| => cells[g.members[k]].pos) +
      MemberPositions(groups, cells, ids[1..])
  }

  /** Every position collected from the target groups is the position of a cell. */
  lemma {:induction false} MemberPositionsIn(groups: seq<Group>, cells: seq<Cell>, ids: seq<nat>, p: Position)
    requires GroupsIn(groups, |cells|) && forall k :: 0 <= k < |ids| ==> ids[k] < |groups|
    requires p in MemberPositions(groups, cells, ids)
    ensures exists c :: 0 <= c < |cells| && cells[c].pos == p
  {
    var g := groups[ids[0]];
    var here := seq(|g.members|, k requires 0 <= k < |g.members| => cells[g.members[k]].pos);
    if p in here {
      var k :| 0 <= k < |here| && here[k] == p;
      assert IdsIn(g.members, |cells|);
      assert cells[g.members[k]].pos == p;
    } else {
      MemberPositionsIn(groups, cells, ids[1..], p);
    }
  }

  /** Member `i` of a target group has its position collected. */
  lemma {:induction false} MemberPositionsHas(groups: seq<Group>, cells: seq<Cell>, ids: seq<nat>, t: nat, i: nat)
    requires GroupsIn(groups, |cells|) && forall k :: 0 <= k < |ids| ==> ids[k] < |groups|
    requires t < |ids| && i in groups[ids[t]].members
    ensures i < |cells| && cells[i].pos in MemberPositions(groups, cells, ids)
  {
    var g := groups[ids[0]];
    var here := seq(|g.members|, k requires 0 <= k < |g.members| => cells[g.members[k]].pos);
    assert IdsIn(groups[ids[t]].members, |cells|);
    if t == 0 {
      var k :| 0 <= k < |g.members| && g.members[k] == i;
      assert here[k] == cells[i].pos;
    } else {
      MemberPositionsHas(groups, cells, ids[1..], t - 1, i);
    }
  }

  /** The candidates a cell at `p` gets back: the symbols that all of its groups list. */
  function CandidatesAt(groups: seq<Group>, cells: seq<Cell>, p: Position): seq<nat>
    requires GroupsIn(groups, |cells|)
  {
    var ids := FindGroups(groups, cells, p);
    Common(RemainingLists(groups, ids))
  }

  /** The cells after the recomputation: a cell at a collected position takes its groups' common symbols. */
  function Recomputed(cells: seq<Cell>, groups: seq<Group>, touched: seq<Position>): (r: seq<Cell>)
    requires GroupsIn(groups, |cells|)
    ensures |r| == |cells| && forall c :: 0 <= c < |cells| ==> r[c].pos == cells[c].pos
  {
    seq(|cells|, c requires 0 <= c < |cells| =>
      if cells[c].pos in touched then RestoreAnswerCandidate(cells[c], CandidatesAt(groups, cells, cells[c].pos))
      else cells[c])
  }

  /** The cell `i` without its answer. */
  function Cleared(cells: seq<Cell>, i: nat): (r: seq<Cell>)
    requires i < |cells|
    ensures |r| == |cells| && forall c :: 0 <= c < |cells| ==> r[c].pos == cells[c].pos
  {
    cells[i := Cells.RemoveAnswer(cells[i]).1]
  }

  /**
   * The cells and groups after the answer of cell `i` is undone: the groups with a member
   * at its position get the answer back, and the cells of those groups are recomputed.
   */
  function Undo(cells: seq<Cell>, groups: seq<Group>, i: nat): (seq<Cell>, seq<Group>)
    requires GroupsIn(groups, |cells|) && i < |cells| && cells[i].answer.Some?
  {
    var cleared := Cleared(cells, i);
    var targets := FindGroups(groups, cells, cells[i].pos);
    var groups' := RestoreGroups(groups, cleared, targets, cells[i].answer.value);
    (Recomputed(cleared, groups', MemberPositions(groups', cleared, targets)), groups')
  }

  /**
   * `NormalGame::remove_answer`: an unanswered cell at `pos` leaves the game unchanged and
   * the result is None. Otherwise the cell loses its answer, which is the result; each
   * group with a member at `pos` gets it back at the end of its list unless a member still
   * holds it; every unanswered cell of those groups takes as candidates the symbols that
   * all of its own groups list; and the count goes down by one. The cleared cell itself
   * ends up with exactly the symbols that every group around it lists.
   */
  method RemoveAnswerAt(game: Game, pos: Position) returns (r: Option<nat>)
    requires game.Valid() && FindCell(game.cells, pos).Some?
    modifies game
    ensures game.Valid()
    ensures var i := FindCell(old(game.cells), pos).value;
      r == old(game.cells)[i].answer &&
      if r.None? then
        game.cells == old(game.cells) && game.groups == old(game.groups) &&
        game.answeredCount == old(game.answeredCount)
      else
        (game.cells, game.groups) == Undo(old(game.cells), old(game.groups), i) &&
        game.answeredCount == old(game.answeredCount) - 1
    ensures var i := FindCell(old(game.cells), pos).value;
      var ids := FindGroups(old(game.groups), old(game.cells), pos);
      r.Some? ==> forall j :: 0 <= j < |old(game.groups)| && i in old(game.groups)[j].members ==>
        |ids| > 0 && game.cells[i].answer.None? &&
        forall v :: v in game.cells[i].candidates <==> forall k :: 0 <= k < |ids| ==> v in game.groups[ids[k]].remaining
  {
    var i := FindCell(game.cells, pos).value;
    var removed := Cells.RemoveAnswer(game.cells[i]);
    if removed.0.None? {
      return None;
    }
    ghost var cells0, groups0, count0 := game.cells, game.groups, game.answeredCount;
    var a := removed.0.value;
    ConsistentGroupsIn(game.setting, game.cells, game.groups, game.answeredCount);
    RemoveAnswerKeeps(game.setting, cells0, groups0, count0, i);
    var targets := FindGroups(game.groups, game.cells, pos);
    game.cells := game.cells[i := removed.1];
    assert game.cells == Cleared(cells0, i);
    RestoreTargets(game, targets, a);
    var positions := MemberPositions(game.groups, game.cells, targets);
    assert DistinctPositions(game.cells) by {
      forall x, y | 0 <= x < y < |game.cells| ensures game.cells[x].pos != game.cells[y].pos {
        assert game.cells[x].pos == cells0[x].pos && game.cells[y].pos == cells0[y].pos;
      }
    }
    forall p | p in positions ensures exists c :: 0 <= c < |game.cells| && game.cells[c].pos == p {
      MemberPositionsIn(game.groups, game.cells, targets, p);
    }
    RecomputeCandidates(game, positions);
    game.answeredCount := game.answeredCount - 1;
    r := Some(a);
    UndoClearedCandidatesAll(game.setting, cells0, groups0, count0, i);
  }

  /** The loop over the groups with a member at the position: each gets the symbol `a` back. */
  method RestoreTargets(game: Game, targets: seq<nat>, a: nat)
    requires GroupsIn(game.groups, |game.cells|)
    requires Increasing(targets) && forall k :: 0 <= k < |targets| ==> targets[k] < |game.groups|
    modifies game
    ensures game.cells == old(game.cells) && game.answeredCount == old(game.answeredCount)
    ensures game.groups == RestoreGroups(old(game.groups), game.cells, targets, a)
  {
    ghost var groups0 := game.groups;
    for t := 0 to |targets|
      invariant game.cells == old(game.cells) && game.answeredCount == old(game.answeredCount)
      invariant |game.groups| == |groups0|
      invariant forall j :: 0 <= j < |groups0| ==>
        game.groups[j] == if j in targets[..t] then RestoreGroup(groups0[j], game.cells, a) else groups0[j]
    {
      var j := targets[t];
      assert j !in targets[..t] by {
        forall k | 0 <= k < t ensures targets[k] != j {
          assert targets[k] < targets[t];
        }
      }
      game.groups := game.groups[j := RestoreGroup(game.groups[j], game.cells, a)];
      assert targets[..t + 1] == targets[..t] + [j];
    }
    assert targets[..|targets|] == targets;
  }

  /** The loop over the collected positions: each cell there takes its groups' common symbols. */
  method RecomputeCandidates(game: Game, positions: seq<Position>)
    requires GroupsIn(game.groups, |game.cells|) && DistinctPositions(game.cells)
    requires forall p :: p in positions ==> exists c :: 0 <= c < |game.cells| && game.cells[c].pos == p
    modifies game
    ensures game.groups == old(game.groups) && game.answeredCount == old(game.answeredCount)
    ensures game.cells == Recomputed(old(game.cells), game.groups, positions)
  {
    game.cells := RecomputedCells(game.cells, game.groups, positions);
  }

  /** The loop of `RecomputeCandidates` on the arena's cells. */
  method RecomputedCells(cleared: seq<Cell>, groups: seq<Group>, positions: seq<Position>) returns (cells: seq<Cell>)
    requires GroupsIn(groups, |cleared|) && DistinctPositions(cleared)
    requires forall p :: p in positions ==> exists c :: 0 <= c < |cleared| && cleared[c].pos == p
    ensures cells == Recomputed(cleared, groups, positions)
  {
    cells := cleared;
    for k := 0 to |positions|
      invariant cells == Recomputed(cleared, groups, positions[..k])
    {
      var p := positions[k];
      assert p in positions;
      LookupStep(cleared, groups, positions[..k], p);
      var ids := FindGroups(groups, cells, p);
      var common := FindAnswerCandidateThatAllGroupsHold(RemainingLists(groups, ids));
      var c := FindCell(cells, p).value;
      RecomputeStep(cleared, groups, positions[..k], c, p, common);
      cells := cells[c := RestoreAnswerCandidate(cells[c], common)];
      PrefixSnoc(positions, k);
    }
    assert positions[..|positions|] == positions;
  }

  /** Recomputed cells are found, and find their groups, as before the recomputation. */
  lemma LookupStep(cleared: seq<Cell>, groups: seq<Group>, seen: seq<Position>, p: Position)
    requires GroupsIn(groups, |cleared|)
    requires exists c :: 0 <= c < |cleared| && cleared[c].pos == p
    ensures var cells := Recomputed(cleared, groups, seen);
      FindCell(cells, p) == FindCell(cleared, p) && FindCell(cleared, p).Some? &&
      FindGroups(groups, cells, p) == FindGroups(groups, cleared, p)
  {
    var cells := Recomputed(cleared, groups, seen);
    FindCellPositions(cleared, cells, p);
    FindGroupsFromPositions(groups, cleared, cells, p, 0);
  }

  /** One step of the recomputation loop extends the collected positions by `p`. */
  lemma RecomputeStep(cleared: seq<Cell>, groups: seq<Group>, seen: seq<Position>, c: nat, p: Position, common: seq<nat>)
    requires GroupsIn(groups, |cleared|) && DistinctPositions(cleared)
    requires c < |cleared| && cleared[c].pos == p
    requires common == CandidatesAt(groups, cleared, p)
    ensures var cells := Recomputed(cleared, groups, seen);
      cells[c := RestoreAnswerCandidate(cells[c], common)] == Recomputed(cleared, groups, seen + [p])
  {
    var cells := Recomputed(cleared, groups, seen);
    var after := cells[c := RestoreAnswerCandidate(cells[c], common)];
    var want := Recomputed(cleared, groups, seen + [p]);
    forall d | 0 <= d < |cleared| ensures after[d] == want[d] {
      if d != c {
        assert cleared[d].pos != p;
      }
    }
  }

  /** Undoing an answer keeps the game consistent, with one answer fewer. */
  lemma RemoveAnswerKeeps(s: GameSetting, cells: seq<Cell>, groups: seq<Group>, count: nat, i: nat)
    requires Consistent(s, cells, groups, count)
    requires i < |cells| && cells[i].answer.Some?
    ensures GroupsIn(groups, |cells|) && count > 0
    ensures Consistent(s, Undo(cells, groups, i).0, Undo(cells, groups, i).1, count - 1)
  {
    ConsistentGroupsIn(s, cells, groups, count);
    AnsweredCountUpdate(cells, i, Cleared(cells, i)[i]);
    var side := SideSize(s);
    var a := cells[i].answer.value;
    var cleared := Cleared(cells, i);
    var targets := FindGroups(groups, cells, cells[i].pos);
    var groups' := RestoreGroups(groups, cleared, targets, a);
    var cells' := Recomputed(cleared, groups', MemberPositions(groups', cleared, targets));
    forall j | 0 <= j < |groups'| ensures GroupOk(groups'[j], cleared, side) {
      RestoredGroupOk(s, cells, groups, count, i, j);
    }
    ClearedOk(s, cells, groups, count, i);
    RecomputedOk(side, cleared, groups', MemberPositions(groups', cleared, targets));
    AnsweredCountUpdate(cells, i, cleared[i]);
    AnsweredCountSame(cleared, cells');
    assert DistinctPositions(cells') by {
      forall x, y | 0 <= x < y < |cells'| ensures cells'[x].pos != cells'[y].pos {
        assert cells'[x].pos == cells[x].pos && cells'[y].pos == cells[y].pos;
      }
    }
  }

  /**
   * The candidates the cleared cell gets back are exactly the symbols that every one of its
   * groups lists once the answer is back in them.
   */
  lemma UndoClearedCandidates(s: GameSetting, cells: seq<Cell>, groups: seq<Group>, count: nat, i: nat, j0: nat)
    requires Consistent(s, cells, groups, count)
    requires i < |cells| && cells[i].answer.Some? && j0 < |groups| && i in groups[j0].members
    ensures GroupsIn(groups, |cells|)
    ensures var u := Undo(cells, groups, i);
      var ids := FindGroups(groups, cells, cells[i].pos);
      |ids| > 0 && u.0[i].answer.None? &&
      forall v :: v in u.0[i].candidates <==> forall k :: 0 <= k < |ids| ==> v in u.1[ids[k]].remaining
  {
    ConsistentGroupsIn(s, cells, groups, count);
    RemoveAnswerKeeps(s, cells, groups, count, i);
    var u := Undo(cells, groups, i);
    var ids := FindGroups(groups, cells, cells[i].pos);
    UndoClearedCell(cells, groups, i, j0);
    var lists := RemainingLists(u.1, ids);
    forall k | 0 <= k < |lists| ensures NoDup(lists[k]) {
      assert GroupOk(u.1[ids[k]], u.0, SideSize(s));
    }
    CommonIsIntersection(lists);
  }

  /** `UndoClearedCandidates` for every group that has the cell as a member. */
  lemma UndoClearedCandidatesAll(s: GameSetting, cells: seq<Cell>, groups: seq<Group>, count: nat, i: nat)
    requires Consistent(s, cells, groups, count) && i < |cells| && cells[i].answer.Some?
    ensures GroupsIn(groups, |cells|)
    ensures var u := Undo(cells, groups, i);
      var ids := FindGroups(groups, cells, cells[i].pos);
      forall j :: 0 <= j < |groups| && i in groups[j].members ==>
        |ids| > 0 && u.0[i].answer.None? &&
        forall v :: v in u.0[i].candidates <==> forall k :: 0 <= k < |ids| ==> v in u.1[ids[k]].remaining
  {
    ConsistentGroupsIn(s, cells, groups, count);
    forall j | 0 <= j < |groups| && i in groups[j].members
      ensures var u := Undo(cells, groups, i);
        var ids := FindGroups(groups, cells, cells[i].pos);
        |ids| > 0 && u.0[i].answer.None? &&
        forall v :: v in u.0[i].candidates <==> forall k :: 0 <= k < |ids| ==> v in u.1[ids[k]].remaining
    {
      UndoClearedCandidates(s, cells, groups, count, i, j);
    }
  }

  /**
   * After the undo, the cleared cell is unanswered and its candidates are the common symbols
   * of the restored lists of its groups, which `find_groups` finds as before.
   */
  lemma UndoClearedCell(cells: seq<Cell>, groups: seq<Group>, i: nat, j0: nat)
    requires GroupsIn(groups, |cells|) && DistinctPositions(cells)
    requires i < |cells| && cells[i].answer.Some? && j0 < |groups| && i in groups[j0].members
    ensures var u := Undo(cells, groups, i);
      var ids := FindGroups(groups, cells, cells[i].pos);
      j0 in ids && |u.1| == |groups| && u.0[i].answer.None? &&
      u.0[i].candidates == Common(RemainingLists(u.1, ids))
  {
    var pos := cells[i].pos;
    var cleared := Cleared(cells, i);
    var ids := FindGroups(groups, cells, pos);
    var groups' := RestoreGroups(groups, cleared, ids, cells[i].answer.value);
    var touched := MemberPositions(groups', cleared, ids);
    HasCellAtMember(groups[j0], cells, i);
    var t :| 0 <= t < |ids| && ids[t] == j0;
    MemberPositionsHas(groups', cleared, ids, t, i);
    FindGroupsSameShape(groups, cells, groups', cleared, pos);
    assert Recomputed(cleared, groups', touched)[i] == RestoreAnswerCandidate(cleared[i], CandidatesAt(groups', cleared, pos));
  }

  /** `find_groups` sees only the members of the groups and the positions of the cells. */
  lemma FindGroupsSameShape(groups: seq<Group>, cells: seq<Cell>, groups': seq<Group>, cells': seq<Cell>, pos: Position)
    requires GroupsIn(groups, |cells|)
    requires |cells'| == |cells| && forall c :: 0 <= c < |cells| ==> cells'[c].pos == cells[c].pos
    requires |groups'| == |groups| && forall j :: 0 <= j < |groups| ==> groups'[j].members == groups[j].members
    ensures GroupsIn(groups', |cells'|)
    ensures FindGroups(groups', cells', pos) == FindGroups(groups, cells, pos)
  {
    assert GroupsIn(groups', |cells'|) by {
      forall j | 0 <= j < |groups'| ensures IdsIn(groups'[j].members, |cells'|) {
        assert IdsIn(groups[j].members, |cells|);
      }
    }
    forall x ensures x in FindGroups(groups', cells', pos) <==> x in FindGroups(groups, cells, pos) {
      if 0 <= x < |groups| {
        assert HasCellAt(groups'[x], cells', pos) <==> HasCellAt(groups[x], cells, pos) by {
          assert IdsIn(groups[x].members, |cells|);
        }
      }
    }
    IncreasingUnique(FindGroups(groups', cells', pos), FindGroups(groups, cells, pos));
  }

  /** The cleared cell is still a well-formed cell, as are all the others. */
  lemma ClearedOk(s: GameSetting, cells: seq<Cell>, groups: seq<Group>, count: nat, i: nat)
    requires Consistent(s, cells, groups, count) && i < |cells|
    ensures forall c :: 0 <= c < |cells| ==> CellOk(Cleared(cells, i)[c], SideSize(s))
  {
    assert CellOk(cells[i], SideSize(s));
  }

  /**
   * Recomputing the candidates of some cells keeps every cell and group well-formed: the
   * answers stay, and the new candidates come from the groups' lists.
   */
  lemma RecomputedOk(side: nat, cells: seq<Cell>, groups: seq<Group>, touched: seq<Position>)
    requires GroupsIn(groups, |cells|)
    requires forall c :: 0 <= c < |cells| ==> CellOk(cells[c], side)
    requires forall j :: 0 <= j < |groups| ==> GroupOk(groups[j], cells, side)
    ensures var cells' := Recomputed(cells, groups, touched);
      (forall c :: 0 <= c < |cells| ==> CellOk(cells'[c], side)) &&
      (forall j :: 0 <= j < |groups| ==> GroupOk(groups[j], cells', side))
  {
    var cells' := Recomputed(cells, groups, touched);
    forall c | 0 <= c < |cells| ensures CellOk(cells'[c], side) {
      assert CellOk(cells[c], side);
      RecomputedInAlphabet(side, cells, groups, cells[c].pos);
    }
    forall j | 0 <= j < |groups| ensures GroupOk(groups[j], cells', side) {
      GroupOkSameAnswers(groups[j], cells, cells', side);
    }
  }

  /** Whether a group is well-formed depends only on the answers of the cells. */
  lemma GroupOkSameAnswers(g: Group, cells: seq<Cell>, cells': seq<Cell>, side: nat)
    requires GroupOk(g, cells, side)
    requires |cells'| == |cells| && forall c :: 0 <= c < |cells| ==> cells'[c].answer == cells[c].answer
    ensures GroupOk(g, cells', side)
  {
    forall v: nat | AnsweredIn(g, cells', v) ensures AnsweredIn(g, cells, v) {
      var k :| 0 <= k < |g.members| && cells'[g.members[k]].answer == Some(v);
      assert cells[g.members[k]].answer == Some(v);
    }
  }

  /** Recomputing candidates does not change which cells are answered, so the count stays. */
  lemma {:induction false} AnsweredCountSame(cells: seq<Cell>, cells': seq<Cell>)
    requires |cells'| == |cells| && forall c :: 0 <= c < |cells| ==> cells'[c].answer == cells[c].answer
    ensures AnsweredCount(cells') == AnsweredCount(cells)
  {
    if cells != [] {
      AnsweredCountSame(cells[1..], cells'[1..]);
    }
  }

  /**
   * A group that got the answer back did list it no more (a member held it), so its list
   * still repeats nothing; and a group whose members hold fewer answers stays well-formed.
   */
  lemma RestoredGroupOk(s: GameSetting, cells: seq<Cell>, groups: seq<Group>, count: nat, i: nat, j: nat)
    requires Consistent(s, cells, groups, count) && GroupsIn(groups, |cells|)
    requires i < |cells| && cells[i].answer.Some? && j < |groups|
    ensures var cleared := Cleared(cells, i);
      var targets := FindGroups(groups, cells, cells[i].pos);
      GroupOk(RestoreGroups(groups, cleared, targets, cells[i].answer.value)[j], cleared, SideSize(s))
  {
    var side := SideSize(s);
    var a := cells[i].answer.value;
    var targets := FindGroups(groups, cells, cells[i].pos);
    var g := groups[j];
    assert GroupOk(g, cells, side);
    assert CellOk(cells[i], side);
    if j in targets {
      HasCellAtMember(g, cells, i);
    }
    RestoreOneGroupOk(g, cells, side, i, a, j in targets);
  }

  /** `RestoredGroupOk` for one group: `restored` says whether it is one of the target groups. */
  lemma RestoreOneGroupOk(g: Group, cells: seq<Cell>, side: nat, i: nat, a: nat, restored: bool)
    requires GroupOk(g, cells, side) && i < |cells| && cells[i].answer == Some(a) && 1 <= a <= side
    requires restored ==> i in g.members
    ensures var cleared := Cleared(cells, i);
      GroupOk(if restored then RestoreGroup(g, cleared, a) else g, cleared, side)
  {
    var cleared := Cleared(cells, i);
    forall v: nat | AnsweredIn(g, cleared, v) ensures AnsweredIn(g, cells, v) {
      var k :| 0 <= k < |g.members| && cleared[g.members[k]].answer == Some(v);
      assert g.members[k] != i;
    }
    if restored && !AnsweredIn(g, cleared, a) {
      var k :| 0 <= k < |g.members| && g.members[k] == i;
      assert AnsweredIn(g, cells, a);
      AppendNoDup(g.remaining, a);
    }
  }

  /** Appending a symbol a list lacks keeps it free of repeats. */
  lemma AppendNoDup(s: seq<nat>, a: nat)
    requires NoDup(s) && a !in s
    ensures NoDup(s + [a])
  {
    var t := s + [a];
    forall x, y | 0 <= x < y < |t| ensures t[x] != t[y] {
      assert t[x] == s[x] && s[x] in s;
    }
  }

  /** The recomputed candidates are symbols of the alphabet, since every group lists only those. */
  lemma RecomputedInAlphabet(side: nat, cells: seq<Cell>, groups: seq<Group>, p: Position)
    requires GroupsIn(groups, |cells|)
    requires forall j :: 0 <= j < |groups| ==> GroupOk(groups[j], cells, side)
    ensures forall v :: v in CandidatesAt(groups, cells, p) ==> 1 <= v <= side
  {
    var ids := FindGroups(groups, cells, p);
    var lists := RemainingLists(groups, ids);
    CommonMembers(lists);
    forall v | v in Common(lists) ensures 1 <= v <= side {
      var k := SomeListHolds(lists, v);
      assert GroupOk(groups[ids[k]], cells, side);
    }
  }

  /** A symbol counted at least once is in one of the lists. */
  lemma {:induction false} SomeListHolds(lists: seq<seq<nat>>, v: nat) returns (k: nat)
    requires CountIn(lists, v) > 0
    ensures k < |lists| && v in lists[k]
  {
    if multiset(lists[0])[v] > 0 {
      k := 0;
    } else {
      var k' := SomeListHolds(lists[1..], v);
      k := k' + 1;
    }
  }
}
