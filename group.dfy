/**
 * Rows, columns and blocks. A group holds the ids of its member cells in the cell arena
 * (the Rust code shares the cells through `Rc<RefCell<Cell>>`) and the list of symbols
 * that no member has answered yet.
 */
module Groups {
  import opened Wrappers
  import opened Setting
  import opened Lists
  import opened Cells
  import Arith

  datatype Group = Group(members: seq<nat>, remaining: seq<nat>)

  /** Every id in `ids` names a cell of an arena of `n` cells. */
  predicate IdsIn(ids: seq<nat>, n: nat) {
    forall k :: 0 <= k < |ids| ==> ids[k] < n
  }

  // ---------------------------------------------------------------- hidden singles

  /** The member with index `k` (from `i` on) is the only one that still holds `c`. */
  predicate OnlyHolder(members: seq<nat>, cells: seq<Cell>, c: nat, i: nat, k: nat)
    requires IdsIn(members, |cells|) && k < |members|
  {
    c in cells[members[k]].candidates &&
    forall j :: i <= j < |members| && c in cells[members[j]].candidates ==> j == k
  }

  /** Positions of the members from index `i` on that hold `c`, in member order. */
  function HoldersFrom(members: seq<nat>, cells: seq<Cell>, c: nat, i: nat): seq<Position>
    requires IdsIn(members, |cells|) && i <= |members|
    decreases |members| - i
  {
    if i == |members| then []
    else
      var cell := cells[members[i]];
      (if HasAnswerCandidate(cell, c) then [cell.pos] else []) + HoldersFrom(members, cells, c, i + 1)
  }

  /** The filter/map pipeline inside `get_lonely`: positions of the members holding `c`. */
  function Holders(members: seq<nat>, cells: seq<Cell>, c: nat): seq<Position>
    requires IdsIn(members, |cells|)
  {
    HoldersFrom(members, cells, c, 0)
  }

  lemma {:induction false} HoldersFromEmpty(members: seq<nat>, cells: seq<Cell>, c: nat, i: nat)
    requires IdsIn(members, |cells|) && i <= |members|
    ensures HoldersFrom(members, cells, c, i) == [] <==>
      forall j :: i <= j < |members| ==> c !in cells[members[j]].candidates
    decreases |members| - i
  {
    if i < |members| {
      HoldersFromEmpty(members, cells, c, i + 1);
      if c in cells[members[i]].candidates {
        assert |HoldersFrom(members, cells, c, i)| > 0;
      } else {
        assert HoldersFrom(members, cells, c, i) == HoldersFrom(members, cells, c, i + 1);
      }
    }
  }

  /** Exactly one holder from `i` on is the same as a holder list of length one. */
  lemma {:induction false} HoldersFromOne(members: seq<nat>, cells: seq<Cell>, c: nat, i: nat)
    requires IdsIn(members, |cells|) && i <= |members|
    ensures forall k :: i <= k < |members| && OnlyHolder(members, cells, c, i, k) ==>
      HoldersFrom(members, cells, c, i) == [cells[members[k]].pos]
    ensures |HoldersFrom(members, cells, c, i)| == 1 ==>
      exists k :: i <= k < |members| && OnlyHolder(members, cells, c, i, k)
    decreases |members| - i
  {
    if i < |members| {
      HoldersFromOne(members, cells, c, i + 1);
      HoldersFromEmpty(members, cells, c, i + 1);
      if c in cells[members[i]].candidates {
        if |HoldersFrom(members, cells, c, i)| == 1 {
          assert OnlyHolder(members, cells, c, i, i);
        }
      } else {
        forall k | i <= k < |members| && OnlyHolder(members, cells, c, i, k)
          ensures OnlyHolder(members, cells, c, i + 1, k)
        {
        }
        if |HoldersFrom(members, cells, c, i)| == 1 {
          var k :| i + 1 <= k < |members| && OnlyHolder(members, cells, c, i + 1, k);
          assert OnlyHolder(members, cells, c, i, k);
        }
      }
    }
  }

  /**
   * What `get_lonely` collects from the first `|remaining|` symbols of the group's list:
   * each symbol held by exactly one member, paired with that member's position.
   */
  function Lonelies(remaining: seq<nat>, members: seq<nat>, cells: seq<Cell>): seq<(Position, nat)>
    requires IdsIn(members, |cells|)
  {
    if remaining == [] then []
    else
      var c := remaining[|remaining| - 1];
      var holders := Holders(members, cells, c);
      Lonelies(remaining[..|remaining| - 1], members, cells) + (if |holders| == 1 then [(holders[0], c)] else [])
  }

  /** `Group::get_lonely`: one pass over the remaining symbols, pushing each hidden single. */
  method GetLonely(g: Group, cells: seq<Cell>) returns (lonelies: seq<(Position, nat)>)
    requires IdsIn(g.members, |cells|)
    ensures lonelies == Lonelies(g.remaining, g.members, cells)
  {
    lonelies := [];
    for i := 0 to |g.remaining|
      invariant lonelies == Lonelies(g.remaining[..i], g.members, cells)
    {
      var candidate := g.remaining[i];
      var holders := Holders(g.members, cells, candidate);
      if |holders| == 1 {
        lonelies := lonelies + [(holders[0], candidate)];
      }
      assert g.remaining[..i + 1][..i] == g.remaining[..i];
    }
    assert g.remaining[..|g.remaining|] == g.remaining;
  }

  /**
   * An entry is reported exactly for a remaining symbol that one member alone holds, and
   * the entry carries that member's position.
   */
  lemma {:induction false} LoneliesMembers(remaining: seq<nat>, members: seq<nat>, cells: seq<Cell>)
    requires IdsIn(members, |cells|)
    ensures forall e :: e in Lonelies(remaining, members, cells) <==>
      e.1 in remaining &&
      exists k :: 0 <= k < |members| && OnlyHolder(members, cells, e.1, 0, k) && cells[members[k]].pos == e.0
  {
    if remaining != [] {
      var n := |remaining| - 1;
      var c := remaining[n];
      LoneliesMembers(remaining[..n], members, cells);
      HoldersFromOne(members, cells, c, 0);
      assert remaining == remaining[..n] + [c];
      forall e: (Position, nat) | e.1 in remaining &&
          exists k :: 0 <= k < |members| && OnlyHolder(members, cells, e.1, 0, k) && cells[members[k]].pos == e.0
        ensures e in Lonelies(remaining, members, cells)
      {
        HoldersFromOne(members, cells, e.1, 0);
      }
    }
  }

  /** The output follows the order of the remaining list: a split of the list splits the output. */
  lemma {:induction false} LoneliesAppend(r1: seq<nat>, r2: seq<nat>, members: seq<nat>, cells: seq<Cell>)
    requires IdsIn(members, |cells|)
    ensures Lonelies(r1 + r2, members, cells) == Lonelies(r1, members, cells) + Lonelies(r2, members, cells)
    decreases |r2|
  {
    if r2 == [] {
      assert r1 + r2 == r1;
    } else {
      var n := |r2| - 1;
      assert (r1 + r2)[..|r1 + r2| - 1] == r1 + r2[..n];
      LoneliesAppend(r1, r2[..n], members, cells);
    }
  }

  // ---------------------------------------------------------------- elimination

  /**
   * `Group::remove_answer_candidate`: the symbol leaves the group's list and the candidate
   * list of every member cell; the other cells are untouched.
   */
  method RemoveAnswerCandidate(g: Group, cells: seq<Cell>, answer: nat) returns (g': Group, cells': seq<Cell>)
    requires IdsIn(g.members, |cells|)
    ensures g' == Group(g.members, Without(g.remaining, answer))
    ensures |cells'| == |cells|
    ensures forall i :: 0 <= i < |cells| ==>
      cells'[i] == if i in g.members then Cells.RemoveAnswerCandidate(cells[i], answer) else cells[i]
  {
    g' := Group(g.members, Without(g.remaining, answer));
    cells' := cells;
    for k := 0 to |g.members|
      invariant |cells'| == |cells|
      invariant forall i :: 0 <= i < |cells| ==>
        cells'[i] == if i in g.members[..k] then Cells.RemoveAnswerCandidate(cells[i], answer) else cells[i]
    {
      var id := g.members[k];
      WithoutTwice(cells[id].candidates, answer);
      cells' := cells'[id := Cells.RemoveAnswerCandidate(cells'[id], answer)];
      assert g.members[..k + 1] == g.members[..k] + [id];
    }
    assert g.members[..|g.members|] == g.members;
  }

  /** After elimination no member offers the symbol and the group no longer lists it. */
  lemma RemoveAnswerCandidateEffect(g: Group, cells: seq<Cell>, answer: nat, g': Group, cells': seq<Cell>)
    requires IdsIn(g.members, |cells|)
    requires g' == Group(g.members, Without(g.remaining, answer))
    requires |cells'| == |cells|
    requires forall i :: 0 <= i < |cells| ==>
      cells'[i] == if i in g.members then Cells.RemoveAnswerCandidate(cells[i], answer) else cells[i]
    ensures forall v :: v in g'.remaining <==> v in g.remaining && v != answer
    ensures forall k :: 0 <= k < |g.members| ==>
      forall v :: v in cells'[g.members[k]].candidates <==> v in cells[g.members[k]].candidates && v != answer
  {
    WithoutMembers(g.remaining, answer);
    forall k | 0 <= k < |g.members|
      ensures forall v :: v in cells'[g.members[k]].candidates <==> v in cells[g.members[k]].candidates && v != answer
    {
      WithoutMembers(cells[g.members[k]].candidates, answer);
    }
  }

  // ---------------------------------------------------------------- group checks

  /** `is_all_clear_answer_candidate`: every symbol of the group has been placed. */
  function IsAllClearAnswerCandidate(g: Group): (r: bool)
    ensures r <==> forall v :: v !in g.remaining
  {
    if |g.remaining| == 0 then true else assert g.remaining[0] in g.remaining; false
  }

  /** The answers of the members from index `i` on, in member order, unanswered ones skipped. */
  function AnswersFrom(members: seq<nat>, cells: seq<Cell>, i: nat): seq<nat>
    requires IdsIn(members, |cells|) && i <= |members|
    decreases |members| - i
  {
    if i == |members| then []
    else
      var a := cells[members[i]].answer;
      (if a.Some? then [a.value] else []) + AnswersFrom(members, cells, i + 1)
  }

  /** Two members (from `i` on) hold the same answer. */
  predicate SharedAnswerFrom(members: seq<nat>, cells: seq<Cell>, i: nat)
    requires IdsIn(members, |cells|)
  {
    exists j, k :: i <= j < k < |members| && cells[members[j]].answer.Some? &&
      cells[members[j]].answer == cells[members[k]].answer
  }

  lemma {:induction false} AnswersFromMembers(members: seq<nat>, cells: seq<Cell>, i: nat)
    requires IdsIn(members, |cells|) && i <= |members|
    ensures forall v :: v in AnswersFrom(members, cells, i) <==>
      exists k :: i <= k < |members| && cells[members[k]].answer == Some(v)
    decreases |members| - i
  {
    if i < |members| {
      AnswersFromMembers(members, cells, i + 1);
      var a := cells[members[i]].answer;
      assert AnswersFrom(members, cells, i) == (if a.Some? then [a.value] else []) + AnswersFrom(members, cells, i + 1);
      forall v | exists k :: i <= k < |members| && cells[members[k]].answer == Some(v)
        ensures v in AnswersFrom(members, cells, i)
      {
        var k :| i <= k < |members| && cells[members[k]].answer == Some(v);
        if k > i {
          assert v in AnswersFrom(members, cells, i + 1);
        }
      }
    }
  }

  /** Member `i` holds an answer that a later member holds too. */
  predicate RepeatedLater(members: seq<nat>, cells: seq<Cell>, i: nat)
    requires IdsIn(members, |cells|) && i < |members|
  {
    cells[members[i]].answer.Some? &&
    exists k :: i < k < |members| && cells[members[k]].answer == cells[members[i]].answer
  }

  /** Two members from `i` on share an answer: either two from `i + 1` on do, or member `i` shares its own. */
  lemma SharedAnswerStep(members: seq<nat>, cells: seq<Cell>, i: nat)
    requires IdsIn(members, |cells|) && i < |members|
    ensures SharedAnswerFrom(members, cells, i) <==>
      SharedAnswerFrom(members, cells, i + 1) || RepeatedLater(members, cells, i)
  {
    if SharedAnswerFrom(members, cells, i) {
      var j, k :| i <= j < k < |members| && cells[members[j]].answer.Some? &&
        cells[members[j]].answer == cells[members[k]].answer;
      if j > i {
        assert SharedAnswerFrom(members, cells, i + 1);
      }
    }
    if SharedAnswerFrom(members, cells, i + 1) {
      var j, k :| i + 1 <= j < k < |members| && cells[members[j]].answer.Some? &&
        cells[members[j]].answer == cells[members[k]].answer;
      assert SharedAnswerFrom(members, cells, i);
    }
    if cells[members[i]].answer.Some? && exists k :: i < k < |members| && cells[members[k]].answer == cells[members[i]].answer {
      var k :| i < k < |members| && cells[members[k]].answer == cells[members[i]].answer;
      assert SharedAnswerFrom(members, cells, i);
    }
  }

  /** The answers list repeats a value exactly when two members share an answer. */
  lemma {:induction false} AnswersFromDistinct(members: seq<nat>, cells: seq<Cell>, i: nat)
    requires IdsIn(members, |cells|) && i <= |members|
    ensures NoDup(AnswersFrom(members, cells, i)) <==> !SharedAnswerFrom(members, cells, i)
    decreases |members| - i
  {
    if i < |members| {
      var rest := AnswersFrom(members, cells, i + 1);
      AnswersFromDistinct(members, cells, i + 1);
      SharedAnswerStep(members, cells, i);
      var a := cells[members[i]].answer;
      if a.Some? {
        HeadRepeated(members, cells, i);
        assert AnswersFrom(members, cells, i) == [a.value] + rest;
        NoDupConsOf(a.value, rest);
      } else {
        assert AnswersFrom(members, cells, i) == rest;
      }
    }
  }

  /** Member `i`'s answer reappears in the answers after it exactly when a later member holds it. */
  lemma HeadRepeated(members: seq<nat>, cells: seq<Cell>, i: nat)
    requires IdsIn(members, |cells|) && i < |members| && cells[members[i]].answer.Some?
    ensures cells[members[i]].answer.value in AnswersFrom(members, cells, i + 1) <==>
      RepeatedLater(members, cells, i)
  {
    AnswersFromMembers(members, cells, i + 1);
    var v := cells[members[i]].answer.value;
    assert v in AnswersFrom(members, cells, i + 1) <==>
      exists k :: i + 1 <= k < |members| && cells[members[k]].answer == Some(v);
  }

  /**
   * `is_duplicate_answer`: the answers are collected and compared in size with their set,
   * which is true exactly when two members hold the same answer.
   */
  function IsDuplicateAnswer(g: Group, cells: seq<Cell>): (r: bool)
    requires IdsIn(g.members, |cells|)
    ensures r <==> SharedAnswerFrom(g.members, cells, 0)
  {
    var answers := AnswersFrom(g.members, cells, 0);
    NoDupCard(answers);
    AnswersFromDistinct(g.members, cells, 0);
    |answers| != |Elems(answers)|
  }

  // ---------------------------------------------------------------- builders

  /** A vertical group shares an x coordinate (a column), a horizontal one a y (a row). */
  datatype Axis = Vertical | Horizontal

  function Coord(p: Position, axis: Axis): nat {
    if axis == Vertical then p.x else p.y
  }

  /** Ids of the cells whose coordinate on `axis` is `v`, in arena order (`filter` over the cells). */
  function Select(cells: seq<Cell>, axis: Axis, v: nat): (ids: seq<nat>)
    ensures forall k: nat :: k in ids <==> k < |cells| && Coord(cells[k].pos, axis) == v
    ensures Increasing(ids)
    decreases |cells|
  {
    if cells == [] then []
    else
      var n := |cells| - 1;
      var prefix := Select(cells[..n], axis, v);
      if Coord(cells[n].pos, axis) == v then AppendAbove(prefix, n); prefix + [n] else prefix
  }

  function LineGroups(cells: seq<Cell>, s: GameSetting, axis: Axis): seq<Group>
    requires Fits(s)
  {
    seq(SideSize(s), v requires 0 <= v => Group(Select(cells, axis, v), AnswerCandidate(s)))
  }

  /**
   * `create_vertical_groups`: group `x` holds exactly the cells in column `x`, in arena
   * order, and starts with the whole alphabet.
   */
  function CreateVerticalGroups(cells: seq<Cell>, s: GameSetting): (r: seq<Group>)
    requires Fits(s)
    ensures |r| == SideSize(s)
    ensures forall x :: 0 <= x < |r| ==>
      r[x].remaining == AnswerCandidate(s) && Increasing(r[x].members) &&
      forall k: nat :: k in r[x].members <==> k < |cells| && cells[k].pos.x == x
  {
    LineGroups(cells, s, Vertical)
  }

  /**
   * `create_horizontal_groups`: group `y` holds exactly the cells in row `y`, in arena
   * order, and starts with the whole alphabet.
   */
  function CreateHorizontalGroups(cells: seq<Cell>, s: GameSetting): (r: seq<Group>)
    requires Fits(s)
    ensures |r| == SideSize(s)
    ensures forall y :: 0 <= y < |r| ==>
      r[y].remaining == AnswerCandidate(s) && Increasing(r[y].members) &&
      forall k: nat :: k in r[y].members <==> k < |cells| && cells[k].pos.y == y
  {
    LineGroups(cells, s, Horizontal)
  }

  /** `ns` filtered to the multiples of `m`. */
  function MultiplesOf(ns: seq<nat>, m: nat): (r: seq<nat>)
    requires m > 0
    ensures forall v :: v in r <==> v in ns && v % m == 0
    ensures Increasing(ns) ==> Increasing(r)
  {
    if ns == [] then []
    else
      var rest := MultiplesOf(ns[1..], m);
      HeadBelowTail(ns);
      IncreasingTail(ns);
      assert ns == [ns[0]] + ns[1..];
      if ns[0] % m == 0 then
        (if Increasing(ns) then PrependBelow(ns[0], rest); [ns[0]] + rest else [ns[0]] + rest)
      else rest
  }

  /** The first positions of the grid laid out by y, then by x within each y. */
  function StartGrid(ys: seq<nat>, xs: seq<nat>): (r: seq<Position>)
    ensures |r| == |ys| * |xs|
  {
    if ys == [] then []
    else seq(|xs|, i requires 0 <= i < |xs| => Position(xs[i], ys[0])) + StartGrid(ys[1..], xs)
  }

  /** The top-left corner of block `b`, blocks numbered row-major. */
  function BlockStart(s: GameSetting, b: nat): Position
    requires Usable(s)
  {
    var h, w := s.blockHeight, s.blockWidth;
    Arith.DivModNat(b, h);
    Arith.MulNat(b % h, w);
    Arith.MulNat(b / h, h);
    Position((b % h) * w, (b / h) * h)
  }

  /**
   * `create_block_start_positions`: the multiples of the block height (as y) and of the block
   * width (as x) below the side, y outer and x inner. Block `b` starts at `BlockStart(s, b)`.
   */
  function CreateBlockStartPositions(s: GameSetting): (r: seq<Position>)
    requires Usable(s)
    ensures |r| == SideSize(s)
    ensures forall b :: 0 <= b < |r| ==> r[b] == BlockStart(s, b)
  {
    var sideNumList := Range(0, SideSize(s));
    BlockStartsAt(s);
    StartGrid(MultiplesOf(sideNumList, s.blockHeight), MultiplesOf(sideNumList, s.blockWidth))
  }

  lemma BlockStartsAt(s: GameSetting)
    requires Usable(s)
    ensures var sideNumList := Range(0, SideSize(s));
      var r := StartGrid(MultiplesOf(sideNumList, s.blockHeight), MultiplesOf(sideNumList, s.blockWidth));
      |r| == SideSize(s) && forall b :: 0 <= b < |r| ==> r[b] == BlockStart(s, b)
  {
    var h, w := s.blockHeight, s.blockWidth;
    var sideNumList := Range(0, SideSize(s));
    var ys := MultiplesOf(sideNumList, h);
    var xs := MultiplesOf(sideNumList, w);
    MultiplesOfRange(w, h, SideSize(s));
    MultiplesOfRange(h, w, SideSize(s));
    StartGridLength(h, w);
    forall b | 0 <= b < SideSize(s) ensures StartGrid(ys, xs)[b] == BlockStart(s, b) {
      assert b < w * h;
      StartGridBlock(h, w, b);
    }
  }

  lemma StartGridLength(h: nat, w: nat)
    ensures |StartGrid(seq(w, k requires 0 <= k => k * h), seq(h, k requires 0 <= k => k * w))| == h * w
  {
    assert w * h == h * w;
  }

  /** Entry `b` of the grid of multiples is the start of block `b`. */
  lemma StartGridBlock(h: nat, w: nat, b: nat)
    requires h > 0 && w > 0 && b < w * h
    ensures StartGrid(seq(w, k requires 0 <= k => k * h), seq(h, k requires 0 <= k => k * w))[b] ==
      Position((b % h) * w, (b / h) * h)
  {
    var ys := seq(w, k requires 0 <= k => k * h);
    var xs := seq(h, k requires 0 <= k => k * w);
    StartGridIndex(ys, xs, b);
  }

  /** The multiples of `m` below `side = n * m` are `0, m, …, (n - 1) * m`. */
  lemma MultiplesOfRange(n: nat, m: nat, side: nat)
    requires m > 0 && side == n * m
    ensures MultiplesOf(Range(0, side), m) == seq(n, k requires 0 <= k => k * m)
  {
    var ms := seq(n, k requires 0 <= k => k * m);
    RangeAt(0, side);
    RangeMembers(0, side);
    MultiplesIncreasing(n, m);
    forall v: nat ensures v in ms <==> v in Range(0, side) && v % m == 0 {
      MultiplesMember(n, m, v);
    }
    IncreasingUnique(MultiplesOf(Range(0, side), m), ms);
  }

  lemma MultiplesIncreasing(n: nat, m: nat)
    requires m > 0
    ensures Increasing(seq(n, k requires 0 <= k => k * m))
  {
    var ms := seq(n, k requires 0 <= k => k * m);
    forall i, j | 0 <= i < j < n ensures ms[i] < ms[j] {
      Arith.MulMono(i + 1, j, m);
    }
  }

  lemma MultiplesMember(n: nat, m: nat, v: nat)
    requires m > 0
    ensures v in seq(n, k requires 0 <= k => k * m) <==> v < n * m && v % m == 0
  {
    var ms := seq(n, k requires 0 <= k => k * m);
    if v in ms {
      var k :| 0 <= k < n && ms[k] == v;
      Arith.DivModOf(k, 0, m);
      Arith.MulMono(k + 1, n, m);
    }
    if v < n * m && v % m == 0 {
      Arith.DivBelow(v, m, n);
      assert ms[v / m] == v;
    }
  }

  /** Entry `i` of the grid is column `i % |xs|` of row `i / |xs|`. */
  lemma {:induction false} StartGridIndex(ys: seq<nat>, xs: seq<nat>, i: nat)
    requires |xs| > 0 && i < |ys| * |xs|
    ensures i / |xs| < |ys| && StartGrid(ys, xs)[i] == Position(xs[i % |xs|], ys[i / |xs|])
  {
    var n := |xs|;
    if i < n {
      Arith.DivModOf(0, i, n);
    } else {
      Arith.RowStep(i, |ys|, n);
      StartGridIndex(ys[1..], xs, i - n);
      assert StartGrid(ys, xs)[i] == StartGrid(ys[1..], xs)[i - n];
    }
  }

  /**
   * The start positions are exactly the grid positions whose x is a multiple of the block
   * width and whose y is a multiple of the block height, ordered by y, then by x.
   */
  lemma BlockStartPositionsMeaning(s: GameSetting)
    requires Usable(s)
    ensures forall p :: p in CreateBlockStartPositions(s) <==>
      p.x < SideSize(s) && p.y < SideSize(s) && p.x % s.blockWidth == 0 && p.y % s.blockHeight == 0
    ensures forall i, j :: 0 <= i < j < SideSize(s) ==>
      var r := CreateBlockStartPositions(s);
      r[i].y < r[j].y || (r[i].y == r[j].y && r[i].x < r[j].x)
  {
    var r := CreateBlockStartPositions(s);
    forall p | p in r
      ensures p.x < SideSize(s) && p.y < SideSize(s) && p.x % s.blockWidth == 0 && p.y % s.blockHeight == 0
    {
      var b :| 0 <= b < |r| && r[b] == p;
      BlockStartInGrid(s.blockHeight, s.blockWidth, b);
    }
    forall p: Position | p.x < SideSize(s) && p.y < SideSize(s) && p.x % s.blockWidth == 0 && p.y % s.blockHeight == 0
      ensures p in r
    {
      var b := BlockOfStart(s.blockHeight, s.blockWidth, p.x, p.y);
      assert r[b] == p;
    }
    forall i, j | 0 <= i < j < SideSize(s)
      ensures r[i].y < r[j].y || (r[i].y == r[j].y && r[i].x < r[j].x)
    {
      BlockStartOrder(s.blockHeight, s.blockWidth, i, j);
    }
  }

  lemma BlockStartInGrid(h: nat, w: nat, b: nat)
    requires h > 0 && w > 0 && b < h * w
    ensures (b % h) * w < h * w && (b / h) * h < h * w
    ensures ((b % h) * w) % w == 0 && ((b / h) * h) % h == 0
  {
    Arith.MulMono(b % h + 1, h, w);
    Arith.DivModOf(b % h, 0, w);
    assert b < w * h;
    Arith.DivBelow(b, h, w);
    Arith.MulMono(b / h + 1, w, h);
    Arith.DivModOf(b / h, 0, h);
  }

  /** The block whose start is `(x, y)`, for a start-aligned grid position. */
  lemma BlockOfStart(h: nat, w: nat, x: nat, y: nat) returns (b: nat)
    requires h > 0 && w > 0 && x < h * w && y < h * w && x % w == 0 && y % h == 0
    ensures b < h * w && (b % h) * w == x && (b / h) * h == y
  {
    var qx, qy := x / w, y / h;
    Arith.DivBelow(x, w, h);
    assert y < w * h;
    Arith.DivBelow(y, h, w);
    b := qy * h + qx;
    Arith.BlockIndex(qy, qx, h, w);
    Arith.ExactMultiple(x, w);
    Arith.ExactMultiple(y, h);
  }

  lemma BlockStartOrder(h: nat, w: nat, i: nat, j: nat)
    requires h > 0 && w > 0 && i < j
    ensures (i / h) * h < (j / h) * h || ((i / h) * h == (j / h) * h && (i % h) * w < (j % h) * w)
  {
    Arith.DivOrder(i, j, h);
    if i / h < j / h {
      Arith.MulMono(i / h + 1, j / h, h);
    } else {
      Arith.MulMono(i % h + 1, j % h, w);
    }
  }

  /** The `j`-th cell of block `b`: its start moved down `j / w` rows and right `j % w` columns. */
  function BlockCell(s: GameSetting, b: nat, j: nat): Position
    requires Usable(s)
  {
    var start := BlockStart(s, b);
    var w := s.blockWidth;
    Arith.DivModNat(j, w);
    Position(start.x + j % w, start.y + j / w)
  }

  lemma BlockCellInGrid(s: GameSetting, b: nat, j: nat)
    requires Usable(s) && b < SideSize(s) && j < SideSize(s)
    ensures BlockCell(s, b, j).x < SideSize(s) && BlockCell(s, b, j).y < SideSize(s)
  {
    var h, w := s.blockHeight, s.blockWidth;
    assert w * h == h * w;
    Arith.DivModNat(b, h);
    Arith.DivModNat(j, w);
    Arith.DivBelow(b, h, w);
    Arith.DivBelow(j, w, h);
    Arith.BlockIndex(b % h, j % w, w, h);
    Arith.BlockIndex(b / h, j / w, h, w);
  }

  /** Every position of the grid has a cell, so the lookups of `create_block_groups` succeed. */
  predicate Covers(cells: seq<Cell>, s: GameSetting)
    requires Fits(s)
  {
    forall x: nat, y: nat :: x < SideSize(s) && y < SideSize(s) ==> FindCell(cells, Position(x, y)).Some?
  }

  /**
   * Group number `b` of `create_block_groups`: the block's cells row-major from its start
   * position (the first cell found at each position), with the whole alphabet remaining.
   */
  predicate IsBlockGroup(g: Group, cells: seq<Cell>, s: GameSetting, b: nat)
    requires Usable(s)
  {
    g.remaining == AnswerCandidate(s) && |g.members| == SideSize(s) &&
    forall j :: 0 <= j < |g.members| ==> FindCell(cells, BlockCell(s, b, j)) == Some(g.members[j])
  }

  /** Step `(y, x)` of the block loops visits cell `y * w + x` of the block, inside the grid. */
  lemma BlockStep(s: GameSetting, b: nat, y: nat, x: nat) returns (j: nat)
    requires Usable(s) && b < SideSize(s) && y < s.blockHeight && x < s.blockWidth
    ensures j == y * s.blockWidth + x && j < SideSize(s)
    ensures BlockCell(s, b, j) == Position(BlockStart(s, b).x + x, BlockStart(s, b).y + y)
    ensures BlockCell(s, b, j).x < SideSize(s) && BlockCell(s, b, j).y < SideSize(s)
  {
    var h, w := s.blockHeight, s.blockWidth;
    Arith.BlockIndex(y, x, w, h);
    j := y * w + x;
    assert j < SideSize(s) by {
      assert w * h == h * w;
    }
    BlockCellInGrid(s, b, j);
  }

  /** `create_block_groups`: for each start position, the cells of its block in row-major order. */
  method CreateBlockGroups(cells: seq<Cell>, s: GameSetting) returns (groups: seq<Group>)
    requires Usable(s) && Covers(cells, s)
    ensures |groups| == SideSize(s)
    ensures forall b :: 0 <= b < |groups| ==> IsBlockGroup(groups[b], cells, s, b)
  {
    var starts := CreateBlockStartPositions(s);
    groups := [];
    for b := 0 to |starts|
      invariant |groups| == b
      invariant forall b' :: 0 <= b' < b ==> IsBlockGroup(groups[b'], cells, s, b')
    {
      var members := CollectBlock(cells, s, b, starts[b]);
      groups := groups + [Group(members, AnswerCandidate(s))];
    }
  }

  /** `members` are the cells found at the first `|members|` positions of block `b`. */
  predicate BlockPrefix(cells: seq<Cell>, s: GameSetting, b: nat, members: seq<nat>)
    requires Usable(s)
  {
    forall j :: 0 <= j < |members| ==> FindCell(cells, BlockCell(s, b, j)) == Some(members[j])
  }

  lemma BlockPrefixSnoc(cells: seq<Cell>, s: GameSetting, b: nat, members: seq<nat>, id: nat)
    requires Usable(s) && BlockPrefix(cells, s, b, members)
    requires FindCell(cells, BlockCell(s, b, |members|)) == Some(id)
    ensures BlockPrefix(cells, s, b, members + [id])
  {
    var m := members + [id];
    forall j | 0 <= j < |m| ensures FindCell(cells, BlockCell(s, b, j)) == Some(m[j]) {
      if j < |members| {
        assert m[j] == members[j];
      }
    }
  }

  /** The nested `y`/`x` loops of `create_block_groups`: the cell found at each position of block `b`. */
  method CollectBlock(cells: seq<Cell>, s: GameSetting, b: nat, start: Position) returns (members: seq<nat>)
    requires Usable(s) && Covers(cells, s) && b < SideSize(s) && start == BlockStart(s, b)
    ensures |members| == SideSize(s)
    ensures forall j :: 0 <= j < |members| ==> FindCell(cells, BlockCell(s, b, j)) == Some(members[j])
  {
    var h, w := s.blockHeight, s.blockWidth;
    members := [];
    for y := 0 to h
      invariant |members| == y * w
      invariant BlockPrefix(cells, s, b, members)
    {
      for x := 0 to w
        invariant |members| == y * w + x
        invariant BlockPrefix(cells, s, b, members)
      {
        var j := BlockStep(s, b, y, x);
        var pos := MoveX(MoveY(start, y), x);
        assert pos == BlockCell(s, b, j) && j == |members|;
        var found := FindCell(cells, pos);
        BlockPrefixSnoc(cells, s, b, members, found.value);
        members := members + [found.value];
      }
      assert y * w + w == (y + 1) * w;
    }
  }

  /** `create_groups`: all rows, then all columns, then all blocks. */
  method CreateGroups(cells: seq<Cell>, s: GameSetting) returns (groups: seq<Group>)
    requires Usable(s) && Covers(cells, s)
    ensures |groups| == 3 * SideSize(s)
    ensures groups[..SideSize(s)] == CreateHorizontalGroups(cells, s)
    ensures groups[SideSize(s)..2 * SideSize(s)] == CreateVerticalGroups(cells, s)
    ensures forall b :: 0 <= b < SideSize(s) ==> IsBlockGroup(groups[2 * SideSize(s)..][b], cells, s, b)
  {
    var hg := CreateHorizontalGroups(cells, s);
    var vg := CreateVerticalGroups(cells, s);
    var gg := CreateBlockGroups(cells, s);
    groups := hg + vg + gg;
    assert groups[..SideSize(s)] == hg;
    assert groups[SideSize(s)..2 * SideSize(s)] == vg;
  }

  /** The tests' 2x3 start positions. */
  lemma BlockStartPositionsExample(s: GameSetting)
    requires s == GameSetting(2, 3)
    ensures var r := CreateBlockStartPositions(s);
      |r| == 6 && r[0] == Position(0, 0) && r[1] == Position(3, 0) && r[2] == Position(0, 2) &&
      r[3] == Position(3, 2) && r[4] == Position(0, 4) && r[5] == Position(3, 4)
  {
    var r := CreateBlockStartPositions(s);
    assert |r| == 6;
    assert r[0] == BlockStart(s, 0) == Position(0, 0);
    assert r[1] == BlockStart(s, 1) == Position(3, 0);
    assert r[2] == BlockStart(s, 2) == Position(0, 2);
    assert r[3] == BlockStart(s, 3) == Position(3, 2);
    assert r[4] == BlockStart(s, 4) == Position(0, 4);
    assert r[5] == BlockStart(s, 5) == Position(3, 4);
  }

  /** The first block of a 2x3 grid: (0,0), (1,0), (2,0), (0,1), (1,1), (2,1), in group order. */
  lemma FirstBlockExample()
    ensures forall j :: 0 <= j < 6 ==> BlockCell(GameSetting(2, 3), 0, j) == Position(j % 3, j / 3)
  {
    assert BlockStart(GameSetting(2, 3), 0) == Position(0, 0);
  }

  /** The last block of a 2x3 grid: (3,4), (4,4), (5,4), (3,5), (4,5), (5,5), in group order. */
  lemma LastBlockExample()
    ensures forall j :: 0 <= j < 6 ==> BlockCell(GameSetting(2, 3), 5, j) == Position(3 + j % 3, 4 + j / 3)
  {
    assert BlockStart(GameSetting(2, 3), 5) == Position(3, 4);
  }
}
