/**
 * The first `NormalGame` API: a struct literal with the block size copied from the
 * setting, the alphabet `1..=h*w` and the row-major 1-based cells.
 */
module LegacyGame {
  import opened Setting
  import LegacyCell

  datatype NormalGame = NormalGame(
    blockHeight: nat,
    blockWidth: nat,
    answerCandidate: seq<nat>,
    cells: seq<LegacyCell.Cell>)

  /** `NormalGame::new`; the product `h * w` is taken in `u8`, so it must fit. */
  function New(setting: GameSetting): (game: NormalGame)
    requires Fits(setting) && SideSize(setting) > 0
    ensures game.blockHeight == setting.blockHeight && game.blockWidth == setting.blockWidth
    ensures |game.answerCandidate| == SideSize(setting)
    ensures forall v :: v in game.answerCandidate <==> 1 <= v <= SideSize(setting)
    ensures |game.cells| == SideSize(setting) * SideSize(setting)
  {
    AnswerCandidateIsAlphabet(setting);
    NormalGame(
      setting.blockHeight,
      setting.blockWidth,
      AnswerCandidate(setting),
      LegacyCell.Layout(SideSize(setting)))
  }

  /** The tests' 2x3 game: alphabet [1..6] and 36 cells. */
  lemma NewExample()
    ensures New(GameSetting(2, 3)).answerCandidate == [1, 2, 3, 4, 5, 6]
    ensures |New(GameSetting(2, 3)).cells| == 36
  {
    AnswerCandidateExample();
  }
}
