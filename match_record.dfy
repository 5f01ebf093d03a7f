/** One row of the `matches` table: a regular-season pairing (with a week) or a playoff
    pairing (with a playoff round and a seed-tracking match number), and its reported outcome. */
module MatchRecord {
  import opened Wrappers

  /** Database ids are positive, so Python's truthiness test on an id is a presence test. */
  type PlayerId = x: int | x > 0 witness 1

  /** Up to three games are stored per match (MAX_GAMES). */
  const MaxGames: nat := 3

  /** The two columns `gameK_score1`, `gameK_score2`; either may be NULL. */
  datatype GameSlot = GameSlot(score1: Option<int>, score2: Option<int>) {
    predicate Complete() { score1.Some? && score2.Some? }
  }

  const EmptySlot := GameSlot(None, None)

  datatype Match = Match(
    id: int,
    week: Option<int>,
    player1: Option<PlayerId>,
    player2: Option<PlayerId>,   // None: a bye, or a playoff slot awaiting a play-in winner
    score1: Option<int>,
    score2: Option<int>,
    game1: GameSlot,
    game2: GameSlot,
    game3: GameSlot,
    reported: bool,
    doubleForfeit: bool,
    playoff: bool,
    playoffRound: Option<int>,
    matchNumber: Option<int>)
  {
    predicate IsBye() { player2.None? }

    predicate InPlayoffRound(r: int) { playoff && playoffRound == Some(r) }

    function Games(): seq<GameSlot> { [game1, game2, game3] }
  }

  /** A fresh playoff row as the bracket engine inserts it: no per-game scores, not a forfeit. */
  function NewPlayoffMatch(id: int, p1: Option<PlayerId>, p2: Option<PlayerId>, round: int,
                           matchNumber: int, scores: Option<int>, reported: bool): Match
  {
    Match(id, None, p1, p2, scores, scores, EmptySlot, EmptySlot, EmptySlot,
          reported, false, true, Some(round), Some(matchNumber))
  }

  /** The same match seen from the other side: players, totals and game scores exchanged. */
  function Swap(m: Match): Match {
    m.(player1 := m.player2, player2 := m.player1, score1 := m.score2, score2 := m.score1,
       game1 := GameSlot(m.game1.score2, m.game1.score1),
       game2 := GameSlot(m.game2.score2, m.game2.score1),
       game3 := GameSlot(m.game3.score2, m.game3.score1))
  }
}
