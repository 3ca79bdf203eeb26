/**
 * The size configuration of a game: block height and width, both `u8`.
 * The side of the square grid and the symbol alphabet are derived from them.
 */
module Setting {
  import Arith

  datatype GameSetting = GameSetting(blockHeight: nat, blockWidth: nat)

  /** Both fields are `u8` and `side_size` multiplies them in `u8`. */
  predicate Fits(s: GameSetting) {
    s.blockHeight < 256 && s.blockWidth < 256 && s.blockHeight * s.blockWidth <= 255
  }

  /** The settings every grid operation uses: non-empty blocks whose product fits in `u8`. */
  predicate Usable(s: GameSetting) {
    Fits(s) && s.blockHeight >= 1 && s.blockWidth >= 1
  }

  /** `block_height * block_width`; it is the side of the grid and the alphabet size. */
  function SideSize(s: GameSetting): (side: nat)
    requires Fits(s)
    ensures side <= 255
    ensures side == s.blockHeight * s.blockWidth
    ensures s.blockHeight >= 1 && s.blockWidth >= 1 ==> side >= 1
  {
    Arith.MulPositive(s.blockHeight, s.blockWidth);
    s.blockHeight * s.blockWidth
  }

  /** The half-open range `lo..hi` collected into a list, as `(lo..hi).collect()` does. */
  function Range(lo: nat, hi: nat): seq<nat>
    decreases hi - lo
  {
    if hi <= lo then [] else [lo] + Range(lo + 1, hi)
  }

  lemma {:induction false} RangeAt(lo: nat, hi: nat)
    ensures |Range(lo, hi)| == if hi <= lo then 0 else hi - lo
    ensures forall i :: 0 <= i < |Range(lo, hi)| ==> Range(lo, hi)[i] == lo + i
    decreases hi - lo
  {
    if lo < hi {
      RangeAt(lo + 1, hi);
    }
  }

  /** A range holds exactly the numbers from `lo` up to, not including, `hi`. */
  lemma RangeMembers(lo: nat, hi: nat)
    ensures forall v :: v in Range(lo, hi) <==> lo <= v < hi
  {
    RangeAt(lo, hi);
    forall v | lo <= v < hi
      ensures v in Range(lo, hi)
    {
      assert Range(lo, hi)[v - lo] == v;
    }
  }

  /** `(1..=side_size).collect()`: the symbols of the grid. */
  function AnswerCandidate(s: GameSetting): (r: seq<nat>)
    requires Fits(s)
    ensures |r| == SideSize(s)
    ensures forall i :: 0 <= i < |r| ==> r[i] == i + 1
  {
    RangeAt(1, SideSize(s) + 1);
    Range(1, SideSize(s) + 1)
  }

  /** The alphabet holds exactly 1..=side, ascending and so without repetition. */
  lemma AnswerCandidateIsAlphabet(s: GameSetting)
    requires Fits(s)
    ensures forall v :: v in AnswerCandidate(s) <==> 1 <= v <= SideSize(s)
    ensures forall i, j :: 0 <= i < j < |AnswerCandidate(s)| ==> AnswerCandidate(s)[i] < AnswerCandidate(s)[j]
  {
    RangeMembers(1, SideSize(s) + 1);
  }

  lemma AnswerCandidateExample()
    ensures AnswerCandidate(GameSetting(2, 3)) == [1, 2, 3, 4, 5, 6]
    ensures SideSize(GameSetting(2, 3)) == 6
  {
    var r := AnswerCandidate(GameSetting(2, 3));
    assert |r| == 6;
    assert r[0] == 1 && r[1] == 2 && r[2] == 3 && r[3] == 4 && r[4] == 5 && r[5] == 6;
  }
}
