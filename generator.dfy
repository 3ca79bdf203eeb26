/**
 * The shuffler of `generator.rs`. Cells are moved in place: rows are permuted within each
 * band of `block_height` rows, columns within each band of `block_width` columns, and whole
 * row bands and column bands are permuted too. Every choice comes from the injected
 * `random_index(len)`, so each shuffle here is a function of that index function.
 * Groups hold cells, not positions, so a shuffle leaves every group as it is.
 * `Horizontal` names the rows (the y coordinate), `Vertical` the columns (x), as in the
 * group builders.
 */
module Generator {
  import opened Setting
  import opened Lists
  import opened Cells
  import opened Groups
  import opened Board
  import opened Layout
  import RemoveAnswer
  import Arith

  /** `p` with its coordinate along `ax` replaced by `v`, the other one kept. */
  function Place(p: Position, ax: Axis, v: nat): (r: Position)
    ensures Coord(r, ax) == v
    ensures forall other :: other != ax ==> Coord(r, other) == Coord(p, other)
  {
    match ax
    case Horizontal => Position(p.x, v)
    case Vertical => Position(v, p.y)
  }

  /** `Position::move_y` along rows (`Horizontal`), `Position::move_x` along columns (`Vertical`). */
  function Shift(p: Position, ax: Axis, delta: int): (r: Position)
    requires 0 <= Coord(p, ax) + delta < 256
    ensures r == Place(p, ax, Coord(p, ax) + delta)
  {
    match ax
    case Horizontal => MoveY(p, delta)
    case Vertical => MoveX(p, delta)
  }

  /** Lines per band: a row band is `block_height` rows, a column band `block_width` columns. */
  function Span(s: GameSetting, ax: Axis): nat {
    match ax
    case Horizontal => s.blockHeight
    case Vertical => s.blockWidth
  }

  /** Bands across the grid: `block_width` row bands and `block_height` column bands. */
  function BandCount(s: GameSetting, ax: Axis): nat {
    match ax
    case Horizontal => s.blockWidth
    case Vertical => s.blockHeight
  }

  lemma SpanBands(s: GameSetting, ax: Axis)
    requires Usable(s)
    ensures Span(s, ax) >= 1 && BandCount(s, ax) >= 1
    ensures BandCount(s, ax) * Span(s, ax) == SideSize(s)
  {
  }

  /** The injected index function always picks inside the list, as `Vec::remove` demands. */
  ghost predicate Picks(ri: nat -> nat) {
    forall n: nat :: 0 < n ==> ri(n) < n
  }

  /** The values `Vec::remove(random_index(len))` takes out of `xs`, one per call, until it is empty. */
  function Draws(xs: seq<nat>, ri: nat -> nat): (r: seq<nat>)
    requires Picks(ri)
    ensures |r| == |xs|
    decreases |xs|
  {
    if xs == [] then []
    else
      var i := ri(|xs|);
      [xs[i]] + Draws(xs[..i] + xs[i + 1..], ri)
  }

  /** One call of `random_index` and `Vec::remove`: it takes out the next draw and leaves the rest to draw. */
  lemma DrawNext(xs: seq<nat>, ri: nat -> nat, ys: seq<nat>)
    requires Picks(ri) && xs != [] && Draws(xs, ri) == ys
    ensures ri(|xs|) < |xs| && ys != [] && xs[ri(|xs|)] == ys[0]
    ensures Draws(xs[..ri(|xs|)] + xs[ri(|xs|) + 1..], ri) == ys[1..]
  {
  }

  /** Drawing removes each entry exactly once: the draws are a permutation of the list. */
  lemma {:induction false} DrawsPermutes(xs: seq<nat>, ri: nat -> nat)
    requires Picks(ri)
    ensures multiset(Draws(xs, ri)) == multiset(xs)
    decreases |xs|
  {
    if xs != [] {
      var i := ri(|xs|);
      var rest := xs[..i] + xs[i + 1..];
      DrawsPermutes(rest, ri);
      assert multiset(Draws(xs, ri)) == multiset{xs[i]} + multiset(Draws(rest, ri)) by {
        assert Draws(xs, ri) == [xs[i]] + Draws(rest, ri);
      }
      assert multiset(xs) == multiset(xs[..i]) + multiset{xs[i]} + multiset(xs[i + 1..]) by {
        assert xs == xs[..i] + [xs[i]] + xs[i + 1..];
      }
      assert multiset(rest) == multiset(xs[..i]) + multiset(xs[i + 1..]);
    }
  }

  /** The first draw, then the draws of what is left. */
  lemma DrawsCons(xs: seq<nat>, ri: nat -> nat)
    requires Picks(ri) && xs != []
    ensures ri(|xs|) < |xs|
    ensures Draws(xs, ri) == [xs[ri(|xs|)]] + Draws(xs[..ri(|xs|)] + xs[ri(|xs|) + 1..], ri)
  {
  }

  /** Drawn from a list without repetition, the draws repeat nothing either. */
  lemma {:induction false} DrawsNoDup(xs: seq<nat>, ri: nat -> nat)
    requires Picks(ri) && NoDup(xs)
    ensures NoDup(Draws(xs, ri))
    decreases |xs|
  {
    if xs != [] {
      var i := ri(|xs|);
      var rest := xs[..i] + xs[i + 1..];
      RemoveNoDup(xs, i);
      DrawsNoDup(rest, ri);
      NotDrawn(rest, ri, xs[i]);
      DrawsCons(xs, ri);
      var d, tail := Draws(xs, ri), Draws(rest, ri);
      forall a, b | 0 <= a < b < |d| ensures d[a] != d[b] {
        assert d[b] == tail[b - 1];
        if a > 0 {
          assert d[a] == tail[a - 1];
        }
      }
    }
  }

  /** Taking entry `i` out of a list without repetition leaves one without it and without repetition. */
  lemma RemoveNoDup(xs: seq<nat>, i: nat)
    requires NoDup(xs) && i < |xs|
    ensures NoDup(xs[..i] + xs[i + 1..]) && xs[i] !in xs[..i] + xs[i + 1..]
  {
    var rest := xs[..i] + xs[i + 1..];
    forall a | 0 <= a < |rest| ensures rest[a] == xs[if a < i then a else a + 1] && rest[a] != xs[i] {
    }
  }

  /** A value missing from the list is never drawn. */
  lemma NotDrawn(xs: seq<nat>, ri: nat -> nat, v: nat)
    requires Picks(ri) && v !in xs
    ensures v !in Draws(xs, ri)
  {
    DrawsPermutes(xs, ri);
    assert v !in multiset(xs);
  }


  lemma RangeNoDup(lo: nat, hi: nat)
    ensures NoDup(Range(lo, hi))
  {
    RangeAt(lo, hi);
  }

  /** A draw from the range `lo..hi` lies in that range. */
  lemma DrawInRange(lo: nat, hi: nat, ri: nat -> nat, k: nat)
    requires Picks(ri) && k < |Range(lo, hi)|
    ensures lo <= Draws(Range(lo, hi), ri)[k] < hi
  {
    var d := Draws(Range(lo, hi), ri);
    DrawsPermutes(Range(lo, hi), ri);
    assert d[k] in multiset(d);
    assert d[k] in multiset(Range(lo, hi));
    assert d[k] in Range(lo, hi);
    RangeMembers(lo, hi);
  }

  /** Where a drawn value sits: every value of the list is drawn at some step. */
  lemma DrawnAt(xs: seq<nat>, ri: nat -> nat, v: nat) returns (k: nat)
    requires Picks(ri) && v in xs
    ensures k < |xs| && Draws(xs, ri)[k] == v
  {
    DrawsPermutes(xs, ri);
    assert v in multiset(Draws(xs, ri));
    k :| 0 <= k < |Draws(xs, ri)| && Draws(xs, ri)[k] == v;
  }

  // ---------------------------------------------------------------- where each line goes

  /** The line numbers of band `b` (`start..span + start`). */
  function BandLines(s: GameSetting, ax: Axis, b: nat): seq<nat> {
    Range(b * Span(s, ax), Span(s, ax) + b * Span(s, ax))
  }

  /** The targets handed to the lines of band `b`, in line order. */
  function LineDraws(s: GameSetting, ri: nat -> nat, ax: Axis, b: nat): (r: seq<nat>)
    requires Picks(ri)
    ensures |r| == Span(s, ax)
  {
    RangeAt(b * Span(s, ax), Span(s, ax) + b * Span(s, ax));
    Draws(BandLines(s, ax, b), ri)
  }

  /** The targets handed to the bands, in band order (`block_indexes`). */
  function BandDraws(s: GameSetting, ri: nat -> nat, ax: Axis): (r: seq<nat>)
    requires Picks(ri)
    ensures |r| == BandCount(s, ax)
  {
    RangeAt(0, BandCount(s, ax));
    Draws(Range(0, BandCount(s, ax)), ri)
  }

  /**
   * `shuffle_rows` / `shuffle_cols`: line `v` is the `v % span`-th line of band `v / span` and
   * moves to the band's `v % span`-th draw. Lines outside the grid are never collected.
   */
  function LineTarget(s: GameSetting, ri: nat -> nat, ax: Axis, v: nat): nat
    requires Usable(s) && Picks(ri)
  {
    if v < SideSize(s) then
      Locate(s, ax, v);
      LineDraws(s, ri, ax, v / Span(s, ax))[v % Span(s, ax)]
    else v
  }

  /**
   * `shuffle_row_blocks` / `shuffle_col_blocks`: band `b` draws its target band `to`, and
   * line `k` of band `b` lands on line `k` of band `to`.
   */
  function BandTarget(s: GameSetting, ri: nat -> nat, ax: Axis, v: nat): nat
    requires Usable(s) && Picks(ri)
  {
    if v < SideSize(s) then
      Locate(s, ax, v);
      var to := BandDraws(s, ri, ax)[v / Span(s, ax)];
      Arith.MulNat(to, Span(s, ax));
      to * Span(s, ax) + v % Span(s, ax)
    else v
  }

  /** `move_count`: moving line `b * span + k` by `(to - b) * span` lands on line `to * span + k`. */
  lemma MoveCount(b: nat, k: nat, to: nat, span: nat)
    ensures b * span + k + (to - b) * span == to * span + k
  {
    assert (to - b) * span == to * span - b * span;
  }

  /** Line `v` of the grid is line `k` of band `b`. */
  lemma Locate(s: GameSetting, ax: Axis, v: nat)
    requires Usable(s) && v < SideSize(s)
    ensures Span(s, ax) > 0
    ensures v / Span(s, ax) < BandCount(s, ax) && v % Span(s, ax) < Span(s, ax)
    ensures v == v / Span(s, ax) * Span(s, ax) + v % Span(s, ax)
  {
    SpanBands(s, ax);
    Arith.DivBelow(v, Span(s, ax), BandCount(s, ax));
  }

  /** Line `k` of band `b` is line `b * span + k` of the grid. */
  lemma Compose(s: GameSetting, ax: Axis, b: nat, k: nat)
    requires Usable(s) && b < BandCount(s, ax) && k < Span(s, ax)
    ensures b * Span(s, ax) + k < SideSize(s)
    ensures (b * Span(s, ax) + k) / Span(s, ax) == b && (b * Span(s, ax) + k) % Span(s, ax) == k
  {
    SpanBands(s, ax);
    Arith.BlockIndex(b, k, Span(s, ax), BandCount(s, ax));
  }

  /** One of the four shuffles: lines within bands, or whole bands, along an axis. */
  datatype Step = Lines(axis: Axis) | Bands(axis: Axis)

  function Target(s: GameSetting, ri: nat -> nat, step: Step, v: nat): nat
    requires Usable(s) && Picks(ri)
  {
    match step
    case Lines(ax) => LineTarget(s, ri, ax, v)
    case Bands(ax) => BandTarget(s, ri, ax, v)
  }

  /** The cell after the step: it keeps its candidates and answer and stands at its line's target. */
  function Moved(c: Cell, s: GameSetting, ri: nat -> nat, step: Step): (r: Cell)
    requires Usable(s) && Picks(ri)
    ensures r.candidates == c.candidates && r.answer == c.answer
    ensures Coord(r.pos, step.axis) == Target(s, ri, step, Coord(c.pos, step.axis))
    ensures forall other :: other != step.axis ==> Coord(r.pos, other) == Coord(c.pos, other)
  {
    MoveTo(c, Place(c.pos, step.axis, Target(s, ri, step, Coord(c.pos, step.axis))))
  }

  /** Every cell of the arena moved by the step. */
  function Relocate(cells: seq<Cell>, s: GameSetting, ri: nat -> nat, step: Step): (r: seq<Cell>)
    requires Usable(s) && Picks(ri)
    ensures |r| == |cells| && forall i :: 0 <= i < |cells| ==> r[i] == Moved(cells[i], s, ri, step)
  {
    seq(|cells|, i requires 0 <= i < |cells| => Moved(cells[i], s, ri, step))
  }

  /** `shuffle_manualy`: columns, then rows, then row bands, then column bands. */
  function Shuffled(cells: seq<Cell>, s: GameSetting, ri: nat -> nat): seq<Cell>
    requires Usable(s) && Picks(ri)
  {
    var cols := Relocate(cells, s, ri, Lines(Vertical));
    var rows := Relocate(cols, s, ri, Lines(Horizontal));
    var rowBands := Relocate(rows, s, ri, Bands(Horizontal));
    Relocate(rowBands, s, ri, Bands(Vertical))
  }

  // ---------------------------------------------------------------- each step is a bijection

  /** Where line `v` goes under a line shuffle: a draw from its own band's line numbers. */
  lemma LineTargetIs(s: GameSetting, ri: nat -> nat, ax: Axis, v: nat) returns (b: nat, k: nat)
    requires Usable(s) && Picks(ri) && v < SideSize(s)
    ensures b < BandCount(s, ax) && k < Span(s, ax) && v == b * Span(s, ax) + k
    ensures k < |LineDraws(s, ri, ax, b)| && LineTarget(s, ri, ax, v) == LineDraws(s, ri, ax, b)[k]
  {
    Locate(s, ax, v);
    Arith.DivModNat(v, Span(s, ax));
    b, k := v / Span(s, ax), v % Span(s, ax);
    assert LineTarget(s, ri, ax, v) == LineDraws(s, ri, ax, b)[k];
  }

  /** The draws of band `b` are lines of band `b`. */
  lemma LineDrawIn(s: GameSetting, ri: nat -> nat, ax: Axis, b: nat, k: nat)
    requires Picks(ri) && k < Span(s, ax)
    ensures b * Span(s, ax) <= LineDraws(s, ri, ax, b)[k] < b * Span(s, ax) + Span(s, ax)
  {
    var span := Span(s, ax);
    Arith.MulNat(b, span);
    var lo: nat := b * span;
    RangeAt(lo, span + lo);
    DrawInRange(lo, span + lo, ri, k);
    assert LineDraws(s, ri, ax, b)[k] == Draws(BandLines(s, ax, b), ri)[k];
  }

  /** A line shuffle keeps every line of the grid inside its own band. */
  lemma LineTargetInBand(s: GameSetting, ri: nat -> nat, ax: Axis, v: nat)
    requires Usable(s) && Picks(ri) && v < SideSize(s)
    ensures LineTarget(s, ri, ax, v) < SideSize(s)
    ensures LineTarget(s, ri, ax, v) / Span(s, ax) == v / Span(s, ax)
  {
    var b, k := LineTargetIs(s, ri, ax, v);
    var span := Span(s, ax);
    SpanBands(s, ax);
    Arith.MulNat(b, span);
    var lo: nat := b * span;
    var t := LineTarget(s, ri, ax, v);
    LineDrawIn(s, ri, ax, b, k);
    Arith.InStretch(span, b, t);
    Arith.InStretch(span, b, v);
    Arith.BelowMul(t, span, BandCount(s, ax));
  }

  lemma LineTargetInjective(s: GameSetting, ri: nat -> nat, ax: Axis, v: nat, u: nat)
    requires Usable(s) && Picks(ri) && v < SideSize(s) && u < SideSize(s)
    requires LineTarget(s, ri, ax, v) == LineTarget(s, ri, ax, u)
    ensures v == u
  {
    LineTargetInBand(s, ri, ax, v);
    LineTargetInBand(s, ri, ax, u);
    var b, k := LineTargetIs(s, ri, ax, v);
    var b', k' := LineTargetIs(s, ri, ax, u);
    Compose(s, ax, b, k);
    Compose(s, ax, b', k');
    assert b == b';
    RangeNoDup(b * Span(s, ax), Span(s, ax) + b * Span(s, ax));
    DrawsNoDup(BandLines(s, ax, b), ri);
  }

  lemma LineTargetOnto(s: GameSetting, ri: nat -> nat, ax: Axis, u: nat) returns (v: nat)
    requires Usable(s) && Picks(ri) && u < SideSize(s)
    ensures v < SideSize(s) && LineTarget(s, ri, ax, v) == u
  {
    var b, lo := BandOf(s, ax, u);
    var k := LineDrawnAt(s, ri, ax, b, u);
    LineTargetAt(s, ri, ax, b, k);
    v := lo + k;
  }

  /** Line `u` of the grid is one of the lines of band `b`, which starts at line `lo`. */
  lemma BandOf(s: GameSetting, ax: Axis, u: nat) returns (b: nat, lo: nat)
    requires Usable(s) && u < SideSize(s)
    ensures b < BandCount(s, ax) && lo == b * Span(s, ax) && u in BandLines(s, ax, b)
  {
    Locate(s, ax, u);
    var span := Span(s, ax);
    b := u / span;
    Arith.MulNat(b, span);
    lo := b * span;
    assert lo <= u < span + lo;
    RangeMembers(lo, span + lo);
  }

  /** Every line of band `b` is the draw of some line of the band. */
  lemma LineDrawnAt(s: GameSetting, ri: nat -> nat, ax: Axis, b: nat, u: nat) returns (k: nat)
    requires Picks(ri) && u in BandLines(s, ax, b)
    ensures k < Span(s, ax) && LineDraws(s, ri, ax, b)[k] == u
  {
    k := DrawnAt(BandLines(s, ax, b), ri, u);
    RangeAt(b * Span(s, ax), Span(s, ax) + b * Span(s, ax));
    assert LineDraws(s, ri, ax, b) == Draws(BandLines(s, ax, b), ri);
  }

  /** Line `k` of band `b` goes to the band's `k`-th draw. */
  lemma LineTargetAt(s: GameSetting, ri: nat -> nat, ax: Axis, b: nat, k: nat)
    requires Usable(s) && Picks(ri) && b < BandCount(s, ax) && k < Span(s, ax)
    ensures b * Span(s, ax) + k < SideSize(s)
    ensures LineTarget(s, ri, ax, b * Span(s, ax) + k) == LineDraws(s, ri, ax, b)[k]
  {
    Compose(s, ax, b, k);
  }

  lemma BandTargetIn(s: GameSetting, ri: nat -> nat, ax: Axis, v: nat)
    requires Usable(s) && Picks(ri) && v < SideSize(s)
    ensures Span(s, ax) > 0
    ensures v / Span(s, ax) < BandCount(s, ax)
    ensures BandDraws(s, ri, ax)[v / Span(s, ax)] < BandCount(s, ax)
    ensures BandTarget(s, ri, ax, v) < SideSize(s)
    ensures BandTarget(s, ri, ax, v) / Span(s, ax) == BandDraws(s, ri, ax)[v / Span(s, ax)]
    ensures BandTarget(s, ri, ax, v) % Span(s, ax) == v % Span(s, ax)
  {
    Locate(s, ax, v);
    var span := Span(s, ax);
    Arith.DivModNat(v, span);
    var b: nat, k: nat := v / span, v % span;
    BandDrawIn(s, ri, ax, b);
    var to := BandDraws(s, ri, ax)[b];
    Compose(s, ax, to, k);
    assert BandTarget(s, ri, ax, v) == to * span + k;
  }

  /** Band `b` is sent to a band of the grid. */
  lemma BandDrawIn(s: GameSetting, ri: nat -> nat, ax: Axis, b: nat)
    requires Picks(ri) && b < BandCount(s, ax)
    ensures BandDraws(s, ri, ax)[b] < BandCount(s, ax)
  {
    RangeAt(0, BandCount(s, ax));
    DrawInRange(0, BandCount(s, ax), ri, b);
  }

  lemma BandTargetInjective(s: GameSetting, ri: nat -> nat, ax: Axis, v: nat, u: nat)
    requires Usable(s) && Picks(ri) && v < SideSize(s) && u < SideSize(s)
    requires BandTarget(s, ri, ax, v) == BandTarget(s, ri, ax, u)
    ensures v == u
  {
    var span := Span(s, ax);
    BandTargetIn(s, ri, ax, v);
    BandTargetIn(s, ri, ax, u);
    Arith.DivModNat(v, span);
    Arith.DivModNat(u, span);
    var b: nat, b': nat := v / span, u / span;
    BandDrawsDistinct(s, ri, ax, b, b');
    SameSplit(span, v, u);
  }

  /** A number is fixed by its quotient and remainder. */
  lemma SameSplit(span: nat, v: nat, u: nat)
    requires span > 0 && v / span == u / span && v % span == u % span
    ensures v == u
  {
    assert v == v / span * span + v % span;
    assert u == u / span * span + u % span;
  }

  /** Two bands never draw the same target band. */
  lemma BandDrawsDistinct(s: GameSetting, ri: nat -> nat, ax: Axis, b: nat, b': nat)
    requires Picks(ri) && b < BandCount(s, ax) && b' < BandCount(s, ax)
    requires BandDraws(s, ri, ax)[b] == BandDraws(s, ri, ax)[b']
    ensures b == b'
  {
    RangeNoDup(0, BandCount(s, ax));
    DrawsNoDup(Range(0, BandCount(s, ax)), ri);
  }

  lemma BandTargetOnto(s: GameSetting, ri: nat -> nat, ax: Axis, u: nat) returns (v: nat)
    requires Usable(s) && Picks(ri) && u < SideSize(s)
    ensures v < SideSize(s) && BandTarget(s, ri, ax, v) == u
  {
    var span, count := Span(s, ax), BandCount(s, ax);
    Locate(s, ax, u);
    Arith.DivModNat(u, span);
    var t: nat, k: nat := u / span, u % span;
    var b := BandDrawnAt(s, ri, ax, t);
    Compose(s, ax, b, k);
    Arith.MulNat(b, span);
    v := b * span + k;
    BandTargetIn(s, ri, ax, v);
    Arith.DivModEq(BandTarget(s, ri, ax, v), u, span);
  }

  /** Every band is the draw of some band. */
  lemma BandDrawnAt(s: GameSetting, ri: nat -> nat, ax: Axis, t: nat) returns (b: nat)
    requires Picks(ri) && t < BandCount(s, ax)
    ensures b < BandCount(s, ax) && BandDraws(s, ri, ax)[b] == t
  {
    RangeMembers(0, BandCount(s, ax));
    b := DrawnAt(Range(0, BandCount(s, ax)), ri, t);
    assert BandDraws(s, ri, ax) == Draws(Range(0, BandCount(s, ax)), ri);
  }

  lemma TargetOnto(s: GameSetting, ri: nat -> nat, step: Step, u: nat) returns (v: nat)
    requires Usable(s) && Picks(ri) && u < SideSize(s)
    ensures v < SideSize(s) && Target(s, ri, step, v) == u
  {
    match step {
      case Lines(ax) => v := LineTargetOnto(s, ri, ax, u);
      case Bands(ax) => v := BandTargetOnto(s, ri, ax, u);
    }
  }

  /** The lines the grid's lines `0..side` are sent to. */
  function Image(s: GameSetting, ri: nat -> nat, step: Step): set<nat>
    requires Usable(s) && Picks(ri)
  {
    set v | v in Range(0, SideSize(s)) :: Target(s, ri, step, v)
  }

  /** Each step sends the grid's lines to the grid's lines. */
  lemma TargetIn(s: GameSetting, ri: nat -> nat, step: Step, v: nat)
    requires Usable(s) && Picks(ri) && v < SideSize(s)
    ensures Target(s, ri, step, v) < SideSize(s)
  {
    match step
    case Lines(ax) => LineTargetInBand(s, ri, ax, v);
    case Bands(ax) => BandTargetIn(s, ri, ax, v);
  }

  lemma TargetInjective(s: GameSetting, ri: nat -> nat, step: Step, v: nat, u: nat)
    requires Usable(s) && Picks(ri) && v < SideSize(s) && u < SideSize(s)
    requires Target(s, ri, step, v) == Target(s, ri, step, u)
    ensures v == u
  {
    match step
    case Lines(ax) => LineTargetInjective(s, ri, ax, v, u);
    case Bands(ax) => BandTargetInjective(s, ri, ax, v, u);
  }

  /**
   * Each step permutes the lines `0..side` of its axis: no two lines share a target, and the
   * targets of the grid's lines are exactly the grid's lines.
   */
  lemma TargetBijective(s: GameSetting, ri: nat -> nat, step: Step)
    requires Usable(s) && Picks(ri)
    ensures forall v: nat, u: nat :: v < SideSize(s) && u < SideSize(s) && Target(s, ri, step, v) == Target(s, ri, step, u) ==> v == u
    ensures Image(s, ri, step) == Elems(Range(0, SideSize(s)))
  {
    forall v: nat, u: nat | v < SideSize(s) && u < SideSize(s) && Target(s, ri, step, v) == Target(s, ri, step, u)
      ensures v == u
    {
      TargetInjective(s, ri, step, v, u);
    }
    RangeMembers(0, SideSize(s));
    forall v | v in Range(0, SideSize(s)) ensures Target(s, ri, step, v) in Range(0, SideSize(s)) {
      TargetIn(s, ri, step, v);
    }
    forall u | u in Range(0, SideSize(s)) ensures u in Image(s, ri, step) {
      var v := TargetOnto(s, ri, step, u);
      assert v in Range(0, SideSize(s));
    }
  }

  // ---------------------------------------------------------------- what a step does to the grid

  /** Every cell stands inside the `side x side` grid. */
  predicate OnGrid(cells: seq<Cell>, side: nat) {
    forall i :: 0 <= i < |cells| ==> cells[i].pos.x < side && cells[i].pos.y < side
  }

  /** The cells of a fresh game stand inside the grid. */
  lemma InitialOnGrid(s: GameSetting)
    requires Usable(s)
    ensures OnGrid(InitialCells(s), SideSize(s))
  {
    var side := SideSize(s);
    var cells := InitialCells(s);
    InitialCellsLayout(s);
    forall i | 0 <= i < |cells| ensures cells[i].pos.x < side && cells[i].pos.y < side {
      Arith.GridSplit(i, side);
      assert cells[i].pos == Position(i % side, i / side);
    }
  }

  /** Two positions are the same when they agree along both axes. */
  lemma SamePosition(p: Position, q: Position)
    requires Coord(p, Vertical) == Coord(q, Vertical) && Coord(p, Horizontal) == Coord(q, Horizontal)
    ensures p == q
  {
  }

  /**
   * A step keeps a game consistent and on the grid: no two cells meet, no answer or
   * candidate changes, and the groups still name the same cells.
   */
  lemma RelocateKeeps(s: GameSetting, cells: seq<Cell>, groups: seq<Group>, count: nat, ri: nat -> nat, step: Step)
    requires Consistent(s, cells, groups, count) && OnGrid(cells, SideSize(s)) && Picks(ri)
    ensures Consistent(s, Relocate(cells, s, ri, step), groups, count)
    ensures OnGrid(Relocate(cells, s, ri, step), SideSize(s))
  {
    var side := SideSize(s);
    var r := Relocate(cells, s, ri, step);
    RelocateOnGrid(s, cells, ri, step);
    RelocateDistinct(s, cells, ri, step);
    RemoveAnswer.AnsweredCountSame(cells, r);
    forall j | 0 <= j < |groups| ensures GroupOk(groups[j], r, side) {
      RemoveAnswer.GroupOkSameAnswers(groups[j], cells, r, side);
    }
  }

  /** A step keeps every cell on the grid. */
  lemma RelocateOnGrid(s: GameSetting, cells: seq<Cell>, ri: nat -> nat, step: Step)
    requires Usable(s) && OnGrid(cells, SideSize(s)) && Picks(ri)
    ensures OnGrid(Relocate(cells, s, ri, step), SideSize(s))
  {
    var side := SideSize(s);
    var r := Relocate(cells, s, ri, step);
    var ax := step.axis;
    forall i | 0 <= i < |r| ensures r[i].pos.x < side && r[i].pos.y < side {
      TargetIn(s, ri, step, Coord(cells[i].pos, ax));
      assert Coord(r[i].pos, Vertical) < side && Coord(r[i].pos, Horizontal) < side;
    }
  }

  /** A step sends cells at distinct positions to distinct positions. */
  lemma RelocateDistinct(s: GameSetting, cells: seq<Cell>, ri: nat -> nat, step: Step)
    requires Usable(s) && OnGrid(cells, SideSize(s)) && Picks(ri) && DistinctPositions(cells)
    ensures DistinctPositions(Relocate(cells, s, ri, step))
  {
    var side := SideSize(s);
    var r := Relocate(cells, s, ri, step);
    var ax := step.axis;
    forall i, j | 0 <= i < j < |r| ensures r[i].pos != r[j].pos {
      if r[i].pos == r[j].pos {
        var v, u := Coord(cells[i].pos, ax), Coord(cells[j].pos, ax);
        assert v < side && u < side by {
          assert Coord(cells[i].pos, Vertical) < side && Coord(cells[i].pos, Horizontal) < side;
          assert Coord(cells[j].pos, Vertical) < side && Coord(cells[j].pos, Horizontal) < side;
        }
        TargetInjective(s, ri, step, v, u);
        SamePosition(cells[i].pos, cells[j].pos);
        assert false;
      }
    }
  }

  /** A step maps lines to lines: two cells share a line along any axis before exactly when they do after. */
  lemma StepKeepsLines(s: GameSetting, ri: nat -> nat, step: Step, c: Cell, d: Cell, ax: Axis)
    requires Usable(s) && Picks(ri)
    requires c.pos.x < SideSize(s) && c.pos.y < SideSize(s) && d.pos.x < SideSize(s) && d.pos.y < SideSize(s)
    ensures Coord(Moved(c, s, ri, step).pos, ax) == Coord(Moved(d, s, ri, step).pos, ax) <==> Coord(c.pos, ax) == Coord(d.pos, ax)
  {
    if ax == step.axis && Coord(Moved(c, s, ri, step).pos, ax) == Coord(Moved(d, s, ri, step).pos, ax) {
      assert Coord(c.pos, ax) < SideSize(s) && Coord(d.pos, ax) < SideSize(s);
      TargetInjective(s, ri, step, Coord(c.pos, ax), Coord(d.pos, ax));
    }
  }

  /** A step maps bands to bands: two cells share a band before exactly when they do after. */
  lemma StepKeepsBands(s: GameSetting, ri: nat -> nat, step: Step, c: Cell, d: Cell, ax: Axis)
    requires Usable(s) && Picks(ri)
    requires c.pos.x < SideSize(s) && c.pos.y < SideSize(s) && d.pos.x < SideSize(s) && d.pos.y < SideSize(s)
    ensures Span(s, ax) > 0
    ensures Coord(Moved(c, s, ri, step).pos, ax) / Span(s, ax) == Coord(Moved(d, s, ri, step).pos, ax) / Span(s, ax)
      <==> Coord(c.pos, ax) / Span(s, ax) == Coord(d.pos, ax) / Span(s, ax)
  {
    SpanBands(s, ax);
    if ax == step.axis {
      var v, u := Coord(c.pos, ax), Coord(d.pos, ax);
      assert v < SideSize(s) && u < SideSize(s);
      if step.Lines? {
        LinesKeepBands(s, ri, ax, v, u);
      } else {
        BandsKeepBands(s, ri, ax, v, u);
      }
    }
  }

  lemma LinesKeepBands(s: GameSetting, ri: nat -> nat, ax: Axis, v: nat, u: nat)
    requires Usable(s) && Picks(ri) && v < SideSize(s) && u < SideSize(s)
    ensures Span(s, ax) > 0
    ensures LineTarget(s, ri, ax, v) / Span(s, ax) == LineTarget(s, ri, ax, u) / Span(s, ax)
      <==> v / Span(s, ax) == u / Span(s, ax)
  {
    SpanBands(s, ax);
    LineTargetInBand(s, ri, ax, v);
    LineTargetInBand(s, ri, ax, u);
  }

  lemma BandsKeepBands(s: GameSetting, ri: nat -> nat, ax: Axis, v: nat, u: nat)
    requires Usable(s) && Picks(ri) && v < SideSize(s) && u < SideSize(s)
    ensures Span(s, ax) > 0
    ensures BandTarget(s, ri, ax, v) / Span(s, ax) == BandTarget(s, ri, ax, u) / Span(s, ax)
      <==> v / Span(s, ax) == u / Span(s, ax)
  {
    SpanBands(s, ax);
    BandTargetIn(s, ri, ax, v);
    BandTargetIn(s, ri, ax, u);
    Arith.DivModNat(v, Span(s, ax));
    Arith.DivModNat(u, Span(s, ax));
    var b: nat, b': nat := v / Span(s, ax), u / Span(s, ax);
    if BandDraws(s, ri, ax)[b] == BandDraws(s, ri, ax)[b'] {
      BandDrawsDistinct(s, ri, ax, b, b');
    }
  }

  /**
   * `shuffle_manualy` as a whole: a cell keeps its candidates and answer, its column goes
   * through the column shuffle and then the column-band shuffle, its row through the row
   * shuffle and then the row-band shuffle.
   */
  lemma ShuffledAt(cells: seq<Cell>, s: GameSetting, ri: nat -> nat, i: nat)
    requires Usable(s) && Picks(ri) && i < |cells|
    ensures |Shuffled(cells, s, ri)| == |cells|
    ensures Shuffled(cells, s, ri)[i].candidates == cells[i].candidates
    ensures Shuffled(cells, s, ri)[i].answer == cells[i].answer
    ensures Shuffled(cells, s, ri)[i].pos.x == BandTarget(s, ri, Vertical, LineTarget(s, ri, Vertical, cells[i].pos.x))
    ensures Shuffled(cells, s, ri)[i].pos.y == BandTarget(s, ri, Horizontal, LineTarget(s, ri, Horizontal, cells[i].pos.y))
  {
    var cols := Relocate(cells, s, ri, Lines(Vertical));
    var rows := Relocate(cols, s, ri, Lines(Horizontal));
    var rowBands := Relocate(rows, s, ri, Bands(Horizontal));
    var r := Relocate(rowBands, s, ri, Bands(Vertical));
    var c0, c1, c2, c3, c4 := cells[i], cols[i], rows[i], rowBands[i], r[i];
    assert c1 == Moved(c0, s, ri, Lines(Vertical)) && c2 == Moved(c1, s, ri, Lines(Horizontal));
    assert c3 == Moved(c2, s, ri, Bands(Horizontal)) && c4 == Moved(c3, s, ri, Bands(Vertical));
    assert c1.pos.y == c0.pos.y && c3.pos.x == c2.pos.x by {
      assert Coord(c1.pos, Horizontal) == Coord(c0.pos, Horizontal);
      assert Coord(c3.pos, Vertical) == Coord(c2.pos, Vertical);
    }
    assert c2.pos.x == c1.pos.x && c4.pos.y == c3.pos.y by {
      assert Coord(c2.pos, Vertical) == Coord(c1.pos, Vertical);
      assert Coord(c4.pos, Horizontal) == Coord(c3.pos, Horizontal);
    }
  }

  /** The whole shuffle keeps a game consistent and on the grid. */
  lemma ShuffledKeeps(s: GameSetting, cells: seq<Cell>, groups: seq<Group>, count: nat, ri: nat -> nat)
    requires Consistent(s, cells, groups, count) && OnGrid(cells, SideSize(s)) && Picks(ri)
    ensures Consistent(s, Shuffled(cells, s, ri), groups, count)
    ensures OnGrid(Shuffled(cells, s, ri), SideSize(s))
  {
    var cols := Relocate(cells, s, ri, Lines(Vertical));
    var rows := Relocate(cols, s, ri, Lines(Horizontal));
    var rowBands := Relocate(rows, s, ri, Bands(Horizontal));
    RelocateKeeps(s, cells, groups, count, ri, Lines(Vertical));
    RelocateKeeps(s, cols, groups, count, ri, Lines(Horizontal));
    RelocateKeeps(s, rows, groups, count, ri, Bands(Horizontal));
    RelocateKeeps(s, rowBands, groups, count, ri, Bands(Vertical));
  }

  // ---------------------------------------------------------------- the shuffles on the arena

  /** Moves every cell named in `line` to coordinate `to` along `ax`; the other cells stay. */
  method MoveLine(cells: seq<Cell>, line: seq<nat>, ax: Axis, to: nat) returns (r: seq<Cell>)
    requires forall i :: i in line ==> i < |cells|
    ensures |r| == |cells|
    ensures forall i :: 0 <= i < |cells| ==>
      r[i] == if i in line then MoveTo(cells[i], Place(cells[i].pos, ax, to)) else cells[i]
  {
    r := cells;
    for j := 0 to |line|
      invariant |r| == |cells|
      invariant forall i :: 0 <= i < |cells| ==>
        r[i] == if i in line[..j] then MoveTo(cells[i], Place(cells[i].pos, ax, to)) else cells[i]
    {
      var id := line[j];
      assert id in line;
      r := r[id := MoveTo(r[id], Place(r[id].pos, ax, to))];
      assert line[..j + 1] == line[..j] + [id];
    }
    assert line[..|line|] == line;
  }

  /** Shifts every cell named in `line` by `delta` along `ax` (`move_y` / `move_x`); the other cells stay. */
  method ShiftLine(cells: seq<Cell>, line: seq<nat>, ax: Axis, delta: int) returns (r: seq<Cell>)
    requires NoDup(line)
    requires forall i :: i in line ==> i < |cells| && 0 <= Coord(cells[i].pos, ax) + delta < 256
    ensures |r| == |cells|
    ensures forall i :: 0 <= i < |cells| ==>
      r[i] == if i in line then MoveTo(cells[i], Shift(cells[i].pos, ax, delta)) else cells[i]
  {
    r := cells;
    for j := 0 to |line|
      invariant |r| == |cells|
      invariant forall i :: 0 <= i < |cells| ==>
        r[i] == if i in line[..j] then MoveTo(cells[i], Shift(cells[i].pos, ax, delta)) else cells[i]
    {
      var id := line[j];
      assert id in line && id !in line[..j];
      r := r[id := MoveTo(r[id], Shift(r[id].pos, ax, delta))];
      assert line[..j + 1] == line[..j] + [id];
    }
    assert line[..|line|] == line;
  }

  /**
   * The cells of lines `lo..lo + n`, one list per line, each in arena order (the `filter`
   * over the cells that both shuffles run before moving anything).
   */
  method CollectLines(cells: seq<Cell>, ax: Axis, lo: nat, n: nat) returns (lines: seq<seq<nat>>)
    ensures |lines| == n
    ensures forall j :: 0 <= j < n ==> forall i: nat :: i in lines[j] <==> i < |cells| && Coord(cells[i].pos, ax) == lo + j
    ensures forall j :: 0 <= j < n ==> lines[j] == Select(cells, ax, lo + j)
  {
    lines := [];
    for k := 0 to n
      invariant |lines| == k
      invariant forall j :: 0 <= j < k ==> lines[j] == Select(cells, ax, lo + j)
    {
      lines := lines + [Select(cells, ax, lo + k)];
    }
  }

  /**
   * One band of `shuffle_rows` / `shuffle_cols`: the cells of each of the band's lines are
   * listed first, then the `k`-th list moves to the band's `k`-th draw. The cells of the band
   * end up moved by the line step, all other cells stay.
   */
  method ShuffleBand(cells: seq<Cell>, s: GameSetting, ri: nat -> nat, ax: Axis, b: nat) returns (r: seq<Cell>)
    requires Usable(s) && Picks(ri) && b < BandCount(s, ax)
    ensures Span(s, ax) > 0 && |r| == |cells|
    ensures forall i :: 0 <= i < |cells| ==>
      r[i] == if Coord(cells[i].pos, ax) / Span(s, ax) == b then Moved(cells[i], s, ri, Lines(ax)) else cells[i]
  {
    var span := Span(s, ax);
    SpanBands(s, ax);
    Arith.MulNat(b, span);
    var start: nat := b * span;
    var lines := CollectLines(cells, ax, start, span);
    r := MoveLines(cells, lines, s, ri, ax, b);
    BandMoved(cells, r, s, ri, ax, b);
  }

  /** The second half of one band of `shuffle_rows` / `shuffle_cols`: list `k` moves to the band's `k`-th draw. */
  method MoveLines(cells: seq<Cell>, lines: seq<seq<nat>>, s: GameSetting, ri: nat -> nat, ax: Axis, b: nat) returns (r: seq<Cell>)
    requires Usable(s) && Picks(ri) && b < BandCount(s, ax) && |lines| == Span(s, ax)
    requires forall j :: 0 <= j < |lines| ==> lines[j] == Select(cells, ax, b * Span(s, ax) + j)
    ensures LinesMoved(cells, r, s, ri, ax, b * Span(s, ax), Span(s, ax))
  {
    var span := Span(s, ax);
    Arith.MulNat(b, span);
    var start: nat := b * span;
    var indexes := Range(start, span + start);
    LinesStart(s, ri, ax, b);
    r := cells;
    for k := 0 to span
      invariant |indexes| == span - k && Draws(indexes, ri) == LineDraws(s, ri, ax, b)[k..]
      invariant LinesMoved(cells, r, s, ri, ax, start, k)
    {
      indexes, r := MoveNextLine(cells, r, lines[k], indexes, s, ri, ax, b, k);
    }
  }

  /** Before the first round of `MoveLines`, every line of band `b` is left to draw. */
  lemma LinesStart(s: GameSetting, ri: nat -> nat, ax: Axis, b: nat)
    requires Picks(ri)
    ensures |Range(b * Span(s, ax), Span(s, ax) + b * Span(s, ax))| == Span(s, ax)
    ensures Draws(Range(b * Span(s, ax), Span(s, ax) + b * Span(s, ax)), ri) == LineDraws(s, ri, ax, b)[0..]
  {
    var span := Span(s, ax);
    Arith.MulNat(b, span);
    var lo: nat := b * span;
    RangeAt(lo, span + lo);
    assert LineDraws(s, ri, ax, b) == Draws(Range(lo, span + lo), ri);
  }

  /**
   * One round of `MoveLines`: the next target is drawn from the indexes left, and the cells
   * listed for line `k` of band `b` move to it.
   */
  method MoveNextLine(cells: seq<Cell>, r: seq<Cell>, line: seq<nat>, indexes: seq<nat>, s: GameSetting, ri: nat -> nat, ax: Axis, b: nat, k: nat)
    returns (rest: seq<nat>, next: seq<Cell>)
    requires Usable(s) && Picks(ri) && b < BandCount(s, ax) && k < Span(s, ax)
    requires |indexes| == Span(s, ax) - k && Draws(indexes, ri) == LineDraws(s, ri, ax, b)[k..]
    requires LinesMoved(cells, r, s, ri, ax, b * Span(s, ax), k)
    requires line == Select(cells, ax, b * Span(s, ax) + k)
    ensures |rest| == Span(s, ax) - (k + 1) && Draws(rest, ri) == LineDraws(s, ri, ax, b)[k + 1..]
    ensures LinesMoved(cells, next, s, ri, ax, b * Span(s, ax), k + 1)
  {
    LineDrawNext(indexes, s, ri, ax, b, k);
    var i := ri(|indexes|);
    var to := indexes[i];
    rest := indexes[..i] + indexes[i + 1..];
    next := MoveLine(r, line, ax, to);
    Arith.MulNat(b, Span(s, ax));
    LineMovedStep(cells, r, next, line, s, ri, ax, b * Span(s, ax), k, to);
  }

  /** The `k`-th round of `MoveLines` removes the index of line `k`'s target from those left. */
  lemma LineDrawNext(indexes: seq<nat>, s: GameSetting, ri: nat -> nat, ax: Axis, b: nat, k: nat)
    requires Usable(s) && Picks(ri) && b < BandCount(s, ax) && k < Span(s, ax)
    requires |indexes| == Span(s, ax) - k && Draws(indexes, ri) == LineDraws(s, ri, ax, b)[k..]
    ensures ri(|indexes|) < |indexes| && b * Span(s, ax) + k < SideSize(s)
    ensures indexes[ri(|indexes|)] == LineTarget(s, ri, ax, b * Span(s, ax) + k)
    ensures Draws(indexes[..ri(|indexes|)] + indexes[ri(|indexes|) + 1..], ri) == LineDraws(s, ri, ax, b)[k + 1..]
  {
    var drawn := LineDraws(s, ri, ax, b);
    DrawNext(indexes, ri, drawn[k..]);
    assert drawn[k..][1..] == drawn[k + 1..];
    LineTargetAt(s, ri, ax, b, k);
  }

  /** The lines `start..start + k` of `cells` have been moved by the line step in `r`; nothing else has moved. */
  predicate LinesMoved(cells: seq<Cell>, r: seq<Cell>, s: GameSetting, ri: nat -> nat, ax: Axis, start: int, k: nat)
    requires Usable(s) && Picks(ri)
  {
    |r| == |cells| &&
    forall i :: 0 <= i < |cells| ==>
      r[i] == if start <= Coord(cells[i].pos, ax) < start + k then Moved(cells[i], s, ri, Lines(ax)) else cells[i]
  }

  /** Moving the cells listed for line `k` of band `b` to the line's draw moves one more line. */
  lemma LineMovedStep(cells: seq<Cell>, r: seq<Cell>, next: seq<Cell>, line: seq<nat>, s: GameSetting, ri: nat -> nat, ax: Axis, start: nat, k: nat, to: nat)
    requires Usable(s) && Picks(ri)
    requires LinesMoved(cells, r, s, ri, ax, start, k)
    requires line == Select(cells, ax, start + k) && to == LineTarget(s, ri, ax, start + k)
    requires |next| == |r|
    requires forall i :: 0 <= i < |r| ==>
      next[i] == if i in line then MoveTo(r[i], Place(r[i].pos, ax, to)) else r[i]
    ensures LinesMoved(cells, next, s, ri, ax, start, k + 1)
  {
    forall i | 0 <= i < |cells|
      ensures next[i] == if start <= Coord(cells[i].pos, ax) < start + k + 1 then Moved(cells[i], s, ri, Lines(ax)) else cells[i]
    {
      LineMovedAt(cells[i], r[i], next[i], s, ri, ax, start, k, i in line);
    }
  }

  /** `LineMovedStep` for one cell `c`, at `now` before the round and at `after` once it is done. */
  lemma LineMovedAt(c: Cell, now: Cell, after: Cell, s: GameSetting, ri: nat -> nat, ax: Axis, start: nat, k: nat, listed: bool)
    requires Usable(s) && Picks(ri)
    requires listed <==> Coord(c.pos, ax) == start + k
    requires now == if start <= Coord(c.pos, ax) < start + k then Moved(c, s, ri, Lines(ax)) else c
    requires after == if listed then MoveTo(now, Place(now.pos, ax, LineTarget(s, ri, ax, start + k))) else now
    ensures after == if start <= Coord(c.pos, ax) < start + k + 1 then Moved(c, s, ri, Lines(ax)) else c
  {
  }

  /** With all its lines moved, exactly the cells of band `b` have moved. */
  lemma BandMoved(cells: seq<Cell>, r: seq<Cell>, s: GameSetting, ri: nat -> nat, ax: Axis, b: nat)
    requires Usable(s) && Picks(ri) && LinesMoved(cells, r, s, ri, ax, b * Span(s, ax), Span(s, ax))
    ensures Span(s, ax) > 0 && |r| == |cells|
    ensures forall i :: 0 <= i < |cells| ==>
      r[i] == if Coord(cells[i].pos, ax) / Span(s, ax) == b then Moved(cells[i], s, ri, Lines(ax)) else cells[i]
  {
    SpanBands(s, ax);
    forall i | 0 <= i < |cells|
      ensures (b * Span(s, ax) <= Coord(cells[i].pos, ax) < b * Span(s, ax) + Span(s, ax)) == (Coord(cells[i].pos, ax) / Span(s, ax) == b)
    {
      Arith.InStretch(Span(s, ax), b, Coord(cells[i].pos, ax));
    }
  }

  /**
   * `shuffle_rows` (`Horizontal`) and `shuffle_cols` (`Vertical`): band after band, each
   * permuting its own lines. Every cell ends up moved by the line step.
   */
  method ShuffleLines(game: Game, ax: Axis, ri: nat -> nat)
    requires Usable(game.setting) && Picks(ri)
    modifies game
    ensures game.cells == Relocate(old(game.cells), game.setting, ri, Lines(ax))
    ensures game.groups == old(game.groups) && game.answeredCount == old(game.answeredCount)
  {
    var s := game.setting;
    var span := Span(s, ax);
    SpanBands(s, ax);
    ghost var start := game.cells;
    DoneNone(start, s, ri, Lines(ax));
    for b := 0 to BandCount(s, ax)
      invariant game.groups == old(game.groups) && game.answeredCount == old(game.answeredCount)
      invariant Done(start, game.cells, s, ri, Lines(ax), b)
    {
      var cells := ShuffleBand(game.cells, s, ri, ax, b);
      LinesBandStep(start, game.cells, cells, s, ri, ax, b);
      game.cells := cells;
    }
    DoneAll(start, game.cells, s, ri, Lines(ax));
  }

  /** The bands before `b` have been shuffled by `step`: their cells are moved, all others are where they started. */
  predicate Done(start: seq<Cell>, cells: seq<Cell>, s: GameSetting, ri: nat -> nat, step: Step, b: nat)
    requires Usable(s) && Picks(ri)
  {
    SpanBands(s, step.axis);
    |cells| == |start| &&
    forall i :: 0 <= i < |start| ==>
      cells[i] == if Coord(start[i].pos, step.axis) / Span(s, step.axis) < b then Moved(start[i], s, ri, step) else start[i]
  }

  /** Before the first band, nothing is done. */
  lemma DoneNone(start: seq<Cell>, s: GameSetting, ri: nat -> nat, step: Step)
    requires Usable(s) && Picks(ri)
    ensures Done(start, start, s, ri, step, 0)
  {
    SpanBands(s, step.axis);
    forall i | 0 <= i < |start| ensures Coord(start[i].pos, step.axis) / Span(s, step.axis) >= 0 {
      Arith.DivModNat(Coord(start[i].pos, step.axis), Span(s, step.axis));
    }
  }

  /** Once every band is done, every cell has been moved by the step. */
  lemma DoneAll(start: seq<Cell>, cells: seq<Cell>, s: GameSetting, ri: nat -> nat, step: Step)
    requires Usable(s) && Picks(ri) && Done(start, cells, s, ri, step, BandCount(s, step.axis))
    ensures cells == Relocate(start, s, ri, step)
  {
    var ax := step.axis;
    forall i | 0 <= i < |start| ensures cells[i] == Moved(start[i], s, ri, step) {
      var v := Coord(start[i].pos, ax);
      if v < SideSize(s) {
        Locate(s, ax, v);
      } else {
        SpanBands(s, ax);
        if v / Span(s, ax) < BandCount(s, ax) {
          Arith.BelowMul(v, Span(s, ax), BandCount(s, ax));
        }
        assert Target(s, ri, step, v) == v;
      }
    }
  }

  /** Shuffling the lines of band `b` adds it to the bands done: the bands before it keep their lines. */
  lemma LinesBandStep(start: seq<Cell>, cells: seq<Cell>, next: seq<Cell>, s: GameSetting, ri: nat -> nat, ax: Axis, b: nat)
    requires Usable(s) && Picks(ri) && b < BandCount(s, ax) && Done(start, cells, s, ri, Lines(ax), b)
    requires Span(s, ax) > 0 && |next| == |cells|
    requires forall i :: 0 <= i < |cells| ==>
      next[i] == if Coord(cells[i].pos, ax) / Span(s, ax) == b then Moved(cells[i], s, ri, Lines(ax)) else cells[i]
    ensures Done(start, next, s, ri, Lines(ax), b + 1)
  {
    var span := Span(s, ax);
    forall i | 0 <= i < |start|
      ensures next[i] == if Coord(start[i].pos, ax) / span < b + 1 then Moved(start[i], s, ri, Lines(ax)) else start[i]
    {
      var v := Coord(start[i].pos, ax);
      if v / span < b {
        Arith.BelowMul(v, span, BandCount(s, ax));
        LineTargetInBand(s, ri, ax, v);
        assert Coord(cells[i].pos, ax) == LineTarget(s, ri, ax, v);
      }
    }
  }

  /** `line` lists each cell of band `b` along `ax` exactly once, and nothing else. */
  ghost predicate BandList(line: seq<nat>, cells: seq<Cell>, s: GameSetting, ax: Axis, b: nat)
    requires Usable(s)
  {
    SpanBands(s, ax);
    NoDup(line) &&
    forall i: nat :: i in line <==> i < |cells| && Coord(cells[i].pos, ax) / Span(s, ax) == b
  }

  /** The concatenated lists of lines `lo..lo + |ls|` name each cell on those lines exactly once. */
  lemma {:induction false} FlattenSelect(ls: seq<seq<nat>>, cells: seq<Cell>, ax: Axis, lo: nat)
    requires forall j :: 0 <= j < |ls| ==> ls[j] == Select(cells, ax, lo + j)
    ensures NoDup(Flatten(ls))
    ensures forall i: nat :: i in Flatten(ls) <==> i < |cells| && lo <= Coord(cells[i].pos, ax) < lo + |ls|
    decreases |ls|
  {
    if ls != [] {
      FlattenSelect(ls[1..], cells, ax, lo + 1);
      var head, tail := ls[0], Flatten(ls[1..]);
      assert Flatten(ls) == head + tail;
      forall a, c | 0 <= a < c < |head + tail| ensures (head + tail)[a] != (head + tail)[c] {
        if a < |head| <= c {
          assert head[a] in head && tail[c - |head|] in tail;
        }
      }
    }
  }

  /** The list `shuffle_row_blocks` / `shuffle_col_blocks` gathers for band `b` (`inner_lines.concat()`). */
  lemma BandListOf(ls: seq<seq<nat>>, cells: seq<Cell>, s: GameSetting, ax: Axis, b: nat)
    requires Usable(s) && |ls| == Span(s, ax)
    requires forall j :: 0 <= j < |ls| ==> ls[j] == Select(cells, ax, b * Span(s, ax) + j)
    ensures BandList(Flatten(ls), cells, s, ax, b)
  {
    SpanBands(s, ax);
    var span := Span(s, ax);
    Arith.MulNat(b, span);
    var lo: nat := b * span;
    FlattenSelect(ls, cells, ax, lo);
    forall i: nat | i < |cells|
      ensures (lo <= Coord(cells[i].pos, ax) < lo + span) == (Coord(cells[i].pos, ax) / span == b)
    {
      Arith.InStretch(span, b, Coord(cells[i].pos, ax));
    }
  }

  /**
   * `move_count`: a line of band `b` shifted by `(to - b) * span` lands where the band step
   * sends it when `to` is the band's draw, and stays inside the grid.
   */
  lemma BandShift(s: GameSetting, ri: nat -> nat, ax: Axis, v: nat, b: nat)
    requires Usable(s) && Picks(ri) && b < BandCount(s, ax) && Span(s, ax) > 0 && v / Span(s, ax) == b
    ensures v < SideSize(s)
    ensures v + (BandDraws(s, ri, ax)[b] - b) * Span(s, ax) == BandTarget(s, ri, ax, v) < SideSize(s)
  {
    var span, count := Span(s, ax), BandCount(s, ax);
    Arith.BelowMul(v, span, count);
    SpanBands(s, ax);
    assert v < SideSize(s);
    Locate(s, ax, v);
    Arith.DivModNat(v, span);
    var k: nat, to: nat := v % span, BandDraws(s, ri, ax)[b];
    assert BandTarget(s, ri, ax, v) == to * span + k;
    MoveCount(b, k, to, span);
    BandTargetIn(s, ri, ax, v);
  }

  /** Before band `b` moves, its cells are where they started, and their shifts stay inside the grid. */
  lemma BandShiftReady(start: seq<Cell>, cells: seq<Cell>, line: seq<nat>, s: GameSetting, ri: nat -> nat, ax: Axis, b: nat, delta: int)
    requires Usable(s) && Picks(ri) && b < BandCount(s, ax)
    requires Done(start, cells, s, ri, Bands(ax), b) && BandList(line, start, s, ax, b)
    requires delta == (BandDraws(s, ri, ax)[b] - b) * Span(s, ax)
    ensures forall i :: i in line ==> i < |cells| && cells[i] == start[i] && 0 <= Coord(cells[i].pos, ax) + delta < 256
  {
    SpanBands(s, ax);
    forall i | i in line ensures i < |cells| && cells[i] == start[i] && 0 <= Coord(cells[i].pos, ax) + delta < 256
    {
      BandShift(s, ri, ax, Coord(start[i].pos, ax), b);
    }
  }

  /** Shifting the cells of band `b` by its `move_count` adds it to the bands done. */
  lemma BandsBandStep(start: seq<Cell>, cells: seq<Cell>, next: seq<Cell>, line: seq<nat>, s: GameSetting, ri: nat -> nat, ax: Axis, b: nat, delta: int)
    requires Usable(s) && Picks(ri) && b < BandCount(s, ax)
    requires Done(start, cells, s, ri, Bands(ax), b) && BandList(line, start, s, ax, b)
    requires delta == (BandDraws(s, ri, ax)[b] - b) * Span(s, ax)
    requires forall i :: i in line ==> i < |cells| && cells[i] == start[i] && 0 <= Coord(cells[i].pos, ax) + delta < 256
    requires |next| == |cells|
    requires forall i :: 0 <= i < |cells| ==>
      next[i] == if i in line then MoveTo(cells[i], Shift(cells[i].pos, ax, delta)) else cells[i]
    ensures Done(start, next, s, ri, Bands(ax), b + 1)
  {
    SpanBands(s, ax);
    forall i | 0 <= i < |start|
      ensures next[i] == if Coord(start[i].pos, ax) / Span(s, ax) < b + 1 then Moved(start[i], s, ri, Bands(ax)) else start[i]
    {
      var v := Coord(start[i].pos, ax);
      if v / Span(s, ax) == b {
        assert i in line;
        BandShift(s, ri, ax, v, b);
      }
    }
  }

  /**
   * `shuffle_row_blocks` (`Horizontal`) and `shuffle_col_blocks` (`Vertical`): the cells of
   * each band are listed first, then band `b` shifts by `(to - b) * span`, `to` being its
   * draw. Every cell ends up moved by the band step.
   */
  method ShuffleBands(game: Game, ax: Axis, ri: nat -> nat)
    requires Usable(game.setting) && Picks(ri)
    modifies game
    ensures game.cells == Relocate(old(game.cells), game.setting, ri, Bands(ax))
    ensures game.groups == old(game.groups) && game.answeredCount == old(game.answeredCount)
  {
    game.cells := BandsShuffled(game.cells, game.setting, ri, ax);
  }

  /** The first half of `shuffle_row_blocks` / `shuffle_col_blocks`: for each band, the cells of its lines in line order. */
  method CollectBands(cells: seq<Cell>, s: GameSetting, ax: Axis) returns (blockLines: seq<seq<nat>>)
    requires Usable(s)
    ensures |blockLines| == BandCount(s, ax)
    ensures forall j :: 0 <= j < |blockLines| ==> BandList(blockLines[j], cells, s, ax, j)
  {
    var span := Span(s, ax);
    blockLines := [];
    for b := 0 to BandCount(s, ax)
      invariant |blockLines| == b
      invariant forall j :: 0 <= j < b ==> BandList(blockLines[j], cells, s, ax, j)
    {
      Arith.MulNat(b, span);
      var lo: nat := b * span;
      var innerLines := CollectLines(cells, ax, lo, span);
      BandListOf(innerLines, cells, s, ax, b);
      blockLines := blockLines + [Flatten(innerLines)];
    }
  }

  /** The cell moves of `shuffle_row_blocks` / `shuffle_col_blocks`, on the arena's cells. */
  method BandsShuffled(cells: seq<Cell>, s: GameSetting, ri: nat -> nat, ax: Axis) returns (r: seq<Cell>)
    requires Usable(s) && Picks(ri)
    ensures r == Relocate(cells, s, ri, Bands(ax))
  {
    var count := BandCount(s, ax);
    SpanBands(s, ax);
    r := cells;
    var blockIndexes := Range(0, count);
    RangeAt(0, count);
    var blockLines := CollectBands(cells, s, ax);
    ghost var drawn := BandDraws(s, ri, ax);
    ghost var start := cells;
    DoneNone(start, s, ri, Bands(ax));
    for b := 0 to count
      invariant |blockIndexes| == count - b && Draws(blockIndexes, ri) == drawn[b..]
      invariant Done(start, r, s, ri, Bands(ax), b)
    {
      blockIndexes, r := MoveNextBand(start, r, blockIndexes, blockLines[b], s, ri, ax, b);
    }
    DoneAll(start, r, s, ri, Bands(ax));
  }

  /** Round `b` of the band loop removes band `b`'s draw from the bands left. */
  lemma BandDrawNext(blockIndexes: seq<nat>, s: GameSetting, ri: nat -> nat, ax: Axis, b: nat)
    requires Picks(ri) && b < BandCount(s, ax)
    requires |blockIndexes| == BandCount(s, ax) - b && Draws(blockIndexes, ri) == BandDraws(s, ri, ax)[b..]
    ensures ri(|blockIndexes|) < |blockIndexes| && blockIndexes[ri(|blockIndexes|)] == BandDraws(s, ri, ax)[b]
    ensures Draws(blockIndexes[..ri(|blockIndexes|)] + blockIndexes[ri(|blockIndexes|) + 1..], ri) == BandDraws(s, ri, ax)[b + 1..]
  {
    var drawn := BandDraws(s, ri, ax);
    DrawNext(blockIndexes, ri, drawn[b..]);
    assert drawn[b..][1..] == drawn[b + 1..];
  }

  /** One round of the band loop: band `b` draws its target band and its cells shift by the band step. */
  method MoveNextBand(ghost start: seq<Cell>, cells: seq<Cell>, blockIndexes: seq<nat>, line: seq<nat>, s: GameSetting, ri: nat -> nat, ax: Axis, b: nat)
    returns (indexes: seq<nat>, next: seq<Cell>)
    requires Usable(s) && Picks(ri) && b < BandCount(s, ax)
    requires |blockIndexes| == BandCount(s, ax) - b && Draws(blockIndexes, ri) == BandDraws(s, ri, ax)[b..]
    requires Done(start, cells, s, ri, Bands(ax), b) && BandList(line, start, s, ax, b)
    ensures |indexes| == BandCount(s, ax) - b - 1 && Draws(indexes, ri) == BandDraws(s, ri, ax)[b + 1..]
    ensures Done(start, next, s, ri, Bands(ax), b + 1)
  {
    BandDrawNext(blockIndexes, s, ri, ax, b);
    var i := ri(|blockIndexes|);
    var to := blockIndexes[i];
    indexes := blockIndexes[..i] + blockIndexes[i + 1..];
    var moveCount := (to - b) * Span(s, ax);
    BandShiftReady(start, cells, line, s, ri, ax, b, moveCount);
    next := ShiftLine(cells, line, ax, moveCount);
    BandsBandStep(start, cells, next, line, s, ri, ax, b, moveCount);
  }

  /**
   * `shuffle_manualy`: columns, then rows, then row bands, then column bands. A consistent
   * game whose cells stand on the grid stays so.
   */
  method ShuffleManualy(game: Game, ri: nat -> nat)
    requires Usable(game.setting) && Picks(ri)
    modifies game
    ensures game.cells == Shuffled(old(game.cells), game.setting, ri)
    ensures game.groups == old(game.groups) && game.answeredCount == old(game.answeredCount)
    ensures old(game.Valid()) && OnGrid(old(game.cells), SideSize(game.setting)) ==>
      game.Valid() && OnGrid(game.cells, SideSize(game.setting))
  {
    ghost var valid := game.Valid() && OnGrid(game.cells, SideSize(game.setting));
    if valid {
      ShuffledKeeps(game.setting, game.cells, game.groups, game.answeredCount, ri);
    }
    ShuffleLines(game, Vertical, ri);
    ShuffleLines(game, Horizontal, ri);
    ShuffleBands(game, Horizontal, ri);
    ShuffleBands(game, Vertical, ri);
  }

  // ---------------------------------------------------------------- the index function of the tests

  /** `|len| len - 1`, the index function the tests inject: always the last entry. */
  function Last(n: nat): nat {
    if n == 0 then 0 else n - 1
  }

  function Reversed(xs: seq<nat>): (r: seq<nat>)
    ensures |r| == |xs|
  {
    seq(|xs|, i requires 0 <= i < |xs| => xs[|xs| - 1 - i])
  }

  /** Always drawing the last entry hands the entries out back to front. */
  lemma {:induction false} DrawsLast(xs: seq<nat>)
    ensures Picks(Last)
    ensures Draws(xs, Last) == Reversed(xs)
    decreases |xs|
  {
    if xs != [] {
      var n := |xs| - 1;
      DrawsLast(xs[..n]);
      assert Draws(xs, Last) == [xs[n]] + Draws(xs[..n], Last) by {
        assert Last(|xs|) == n;
        assert xs[..n] + xs[n + 1..] == xs[..n];
      }
      assert [xs[n]] + Reversed(xs[..n]) == Reversed(xs);
    }
  }

  /** With `Last`, line `k` of every band goes to line `span - 1 - k` of the same band. */
  lemma LineTargetLast(s: GameSetting, ax: Axis, v: nat)
    requires Usable(s) && v < SideSize(s)
    ensures Picks(Last) && Span(s, ax) > 0
    ensures LineTarget(s, Last, ax, v) == v / Span(s, ax) * Span(s, ax) + (Span(s, ax) - 1 - v % Span(s, ax))
  {
    DrawsLast([]);
    var b, k := LineTargetIs(s, Last, ax, v);
    LineDrawsLast(s, ax, b, k);
    Arith.DivModOf(b, k, Span(s, ax));
  }

  /** With `Last`, line `k` of band `b` draws line `span - 1 - k` of the band. */
  lemma LineDrawsLast(s: GameSetting, ax: Axis, b: nat, k: nat)
    requires k < Span(s, ax)
    ensures Picks(Last) && LineDraws(s, Last, ax, b)[k] == b * Span(s, ax) + (Span(s, ax) - 1 - k)
  {
    var xs := BandLines(s, ax, b);
    var span := Span(s, ax);
    Arith.MulNat(b, span);
    var lo: nat := b * span;
    DrawsLast(xs);
    RangeAt(lo, span + lo);
    assert |xs| == span;
    assert Reversed(xs)[k] == xs[span - 1 - k] == lo + (span - 1 - k);
  }

  /** With `Last`, band `b` goes to band `count - 1 - b`, each line keeping its place in the band. */
  lemma BandTargetLast(s: GameSetting, ax: Axis, v: nat)
    requires Usable(s) && v < SideSize(s)
    ensures Picks(Last) && Span(s, ax) > 0 && v / Span(s, ax) < BandCount(s, ax)
    ensures BandTarget(s, Last, ax, v) == (BandCount(s, ax) - 1 - v / Span(s, ax)) * Span(s, ax) + v % Span(s, ax)
  {
    Locate(s, ax, v);
    var span, count := Span(s, ax), BandCount(s, ax);
    Arith.DivModNat(v, span);
    var b: nat, k: nat := v / span, v % span;
    DrawsLast(Range(0, count));
    RangeAt(0, count);
    var draws := BandDraws(s, Last, ax);
    assert draws == Reversed(Range(0, count));
    assert draws[b] == count - 1 - b;
    assert BandTarget(s, Last, ax, v) == draws[b] * span + k;
  }

  /** With `Last`, the line step followed by the band step sends line `v` to line `side - 1 - v`. */
  lemma LinesThenBandsLast(s: GameSetting, ax: Axis, v: nat)
    requires Usable(s) && v < SideSize(s)
    ensures Picks(Last) && LineTarget(s, Last, ax, v) < SideSize(s)
    ensures BandTarget(s, Last, ax, LineTarget(s, Last, ax, v)) == SideSize(s) - 1 - v
  {
    var span, count := Span(s, ax), BandCount(s, ax);
    LineTargetLast(s, ax, v);
    LineTargetInBand(s, Last, ax, v);
    var t := LineTarget(s, Last, ax, v);
    BandTargetLast(s, ax, t);
    Locate(s, ax, v);
    SpanBands(s, ax);
    HalfTurn(v, t, BandTarget(s, Last, ax, t), span, count);
  }

  lemma LastArith(b: nat, k: nat, span: nat, count: nat)
    requires k < span && b < count
    ensures (count - 1 - b) * span + (span - 1 - k) == count * span - 1 - (b * span + k)
  {
    assert (count - 1 - b) * span == count * span - span - b * span;
  }

  /** The arithmetic of the half turn: reversing the lines of a band, then the bands, reverses all lines. */
  lemma HalfTurn(v: nat, t: nat, r: nat, span: nat, count: nat)
    requires span > 0 && v < count * span
    requires t == v / span * span + (span - 1 - v % span)
    requires r == (count - 1 - t / span) * span + t % span
    ensures r == count * span - 1 - v
  {
    Arith.DivBelow(v, span, count);
    Arith.DivModNat(v, span);
    var b: nat, k: nat := v / span, v % span;
    Arith.DivModOf(b, span - 1 - k, span);
    assert v == b * span + k;
    LastArith(b, k, span, count);
  }

  /**
   * With `Last`, `shuffle_manualy` turns the grid by half a turn: the cell at `(x, y)` ends at
   * `(side - 1 - x, side - 1 - y)`, as the reversal test expects of the 9 x 9 grid.
   */
  lemma ShuffledLast(cells: seq<Cell>, s: GameSetting, i: nat)
    requires Usable(s) && i < |cells| && cells[i].pos.x < SideSize(s) && cells[i].pos.y < SideSize(s)
    ensures Picks(Last) && |Shuffled(cells, s, Last)| == |cells|
    ensures Shuffled(cells, s, Last)[i] ==
      cells[i].(pos := Position(SideSize(s) - 1 - cells[i].pos.x, SideSize(s) - 1 - cells[i].pos.y))
  {
    DrawsLast([]);
    ShuffledAt(cells, s, Last, i);
    LinesThenBandsLast(s, Vertical, cells[i].pos.x);
    LinesThenBandsLast(s, Horizontal, cells[i].pos.y);
  }

  /**
   * The 2 x 2 tests of `shuffle_rows` and `shuffle_cols`: lines 0, 1, 2, 3 go to 1, 0, 3, 2,
   * so `1234|3412|2143|4321` becomes `3412|1234|4321|2143` by rows and `2143|4321|1234|3412`
   * by columns.
   */
  lemma LinesExample(ax: Axis)
    ensures Picks(Last)
    ensures LineTarget(GameSetting(2, 2), Last, ax, 0) == 1 && LineTarget(GameSetting(2, 2), Last, ax, 1) == 0
    ensures LineTarget(GameSetting(2, 2), Last, ax, 2) == 3 && LineTarget(GameSetting(2, 2), Last, ax, 3) == 2
  {
    DrawsLast([]);
    LineTargetTwo(ax, 0);
    LineTargetTwo(ax, 1);
    LineTargetTwo(ax, 2);
    LineTargetTwo(ax, 3);
  }

  /** `LineTargetLast` on the 2 x 2 setting, whose bands are two lines wide. */
  lemma LineTargetTwo(ax: Axis, v: nat)
    requires v < 4
    ensures Picks(Last) && LineTarget(GameSetting(2, 2), Last, ax, v) == v / 2 * 2 + (1 - v % 2)
  {
    var s := GameSetting(2, 2);
    assert Span(s, ax) == 2 && SideSize(s) == 4;
    LineTargetLast(s, ax, v);
  }

  /**
   * The tests of `shuffle_row_blocks` (height 2, width 3) and `shuffle_col_blocks` (height 3,
   * width 2): three bands of two lines are reversed, lines 0..6 going to 4, 5, 2, 3, 0, 1.
   */
  lemma BandsExample()
    ensures Picks(Last)
    ensures forall v :: 0 <= v < 6 ==> BandTarget(GameSetting(2, 3), Last, Horizontal, v) == [4, 5, 2, 3, 0, 1][v]
    ensures forall v :: 0 <= v < 6 ==> BandTarget(GameSetting(3, 2), Last, Vertical, v) == [4, 5, 2, 3, 0, 1][v]
  {
    DrawsLast([]);
    forall v | 0 <= v < 6 ensures BandTarget(GameSetting(2, 3), Last, Horizontal, v) == [4, 5, 2, 3, 0, 1][v] {
      BandTargetLast(GameSetting(2, 3), Horizontal, v);
      ThreeBandsReversed(v);
    }
    forall v | 0 <= v < 6 ensures BandTarget(GameSetting(3, 2), Last, Vertical, v) == [4, 5, 2, 3, 0, 1][v] {
      BandTargetLast(GameSetting(3, 2), Vertical, v);
      ThreeBandsReversed(v);
    }
  }

  /** Three bands of two lines, reversed: the lines 0..6 go to 4, 5, 2, 3, 0, 1. */
  lemma ThreeBandsReversed(v: nat)
    requires v < 6
    ensures (3 - 1 - v / 2) * 2 + v % 2 == [4, 5, 2, 3, 0, 1][v]
  {
  }
}
