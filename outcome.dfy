/** Outcome evaluation of one match record: game scores, aggregate points, game wins,
    the winner and the score summary. */
module Outcome {
  import opened Wrappers
  import opened MatchRecord
  import opened Text

  /** A completed game: (player 1's points, player 2's points). */
  type Score = (int, int)

  /** The game slots whose two scores are both present, in game order. */
  function CompletedGames(slots: seq<GameSlot>): (r: seq<Score>)
    ensures |r| <= |slots|
    ensures |r| == |slots| <==> forall k :: 0 <= k < |slots| ==> slots[k].Complete()
    ensures forall k :: 0 <= k < |r| ==> GameSlot(Some(r[k].0), Some(r[k].1)) in slots
  {
    if slots == [] then []
    else
      var rest := CompletedGames(slots[1..]);
      if slots[0].Complete() then [(slots[0].score1.value, slots[0].score2.value)] + rest
      else
        assert !(forall k :: 0 <= k < |slots| ==> slots[k].Complete());
        rest
  }

  /** Splitting the slots splits the completed games at the same place. */
  lemma {:induction false} CompletedGamesAppend(a: seq<GameSlot>, b: seq<GameSlot>)
    ensures CompletedGames(a + b) == CompletedGames(a) + CompletedGames(b)
    decreases |a|
  {
    if a == [] {
      assert a + b == b;
    } else {
      assert (a + b)[0] == a[0];
      assert (a + b)[1..] == a[1..] + b;
      CompletedGamesAppend(a[1..], b);
    }
  }

  function ExtractGameScores(m: Match): (r: seq<Score>)
    ensures |r| <= MaxGames
  {
    CompletedGames(m.Games())
  }

  /** The extracted games are game 1, game 2 and game 3, in that order, each kept exactly when
      both of its scores are present. */
  lemma ExtractGameScoresInOrder(m: Match)
    ensures ExtractGameScores(m) ==
      (if m.game1.Complete() then [(m.game1.score1.value, m.game1.score2.value)] else []) +
      (if m.game2.Complete() then [(m.game2.score1.value, m.game2.score2.value)] else []) +
      (if m.game3.Complete() then [(m.game3.score1.value, m.game3.score2.value)] else [])
  {
    assert m.Games() == [m.game1] + [m.game2] + [m.game3];
    CompletedGamesAppend([m.game1] + [m.game2], [m.game3]);
    CompletedGamesAppend([m.game1], [m.game2]);
    assert [m.game1][1..] == [] && [m.game2][1..] == [] && [m.game3][1..] == [];
  }

  function SumFirst(s: seq<Score>): int {
    if s == [] then 0 else s[0].0 + SumFirst(s[1..])
  }

  function SumSecond(s: seq<Score>): int {
    if s == [] then 0 else s[0].1 + SumSecond(s[1..])
  }

  /** Totals: the sums of the game scores when any exist, else the stored totals with NULL as 0. */
  function AggregatePoints(m: Match): (r: (int, int))
    ensures ExtractGameScores(m) != [] ==> r == (SumFirst(ExtractGameScores(m)), SumSecond(ExtractGameScores(m)))
    ensures ExtractGameScores(m) == [] ==> r == (m.score1.GetOr(0), m.score2.GetOr(0))
  {
    var scores := ExtractGameScores(m);
    if scores != [] then (SumFirst(scores), SumSecond(scores))
    else (m.score1.GetOr(0), m.score2.GetOr(0))
  }

  predicate NoTiedGame(s: seq<Score>) {
    forall k :: 0 <= k < |s| ==> s[k].0 != s[k].1
  }

  /** Games won by each side: a game goes to the strictly larger score, a tied game to nobody. */
  function GameWins(s: seq<Score>): (r: (nat, nat))
    ensures r.0 + r.1 <= |s|
    ensures NoTiedGame(s) ==> r.0 + r.1 == |s|
  {
    if s == [] then (0, 0)
    else
      var rest := GameWins(s[1..]);
      assert NoTiedGame(s) ==> NoTiedGame(s[1..]);
      if s[0].0 > s[0].1 then (rest.0 + 1, rest.1)
      else if s[0].1 > s[0].0 then (rest.0, rest.1 + 1)
      else rest
  }

  /** Game wins add up over consecutive runs of games. */
  lemma {:induction false} GameWinsAppend(a: seq<Score>, b: seq<Score>)
    ensures GameWins(a + b).0 == GameWins(a).0 + GameWins(b).0
    ensures GameWins(a + b).1 == GameWins(a).1 + GameWins(b).1
  {
    if a == [] {
      assert a + b == b;
    } else {
      assert (a + b)[0] == a[0] && (a + b)[1..] == a[1..] + b;
      GameWinsAppend(a[1..], b);
    }
  }

  /** Each side's game wins are the number of games that side scored strictly more in. */
  lemma {:induction false} GameWinsCountGames(s: seq<Score>)
    ensures GameWins(s).0 == |set k | 0 <= k < |s| && s[k].0 > s[k].1|
    ensures GameWins(s).1 == |set k | 0 <= k < |s| && s[k].1 > s[k].0|
  {
    if s != [] {
      var n := |s| - 1;
      var init := s[..n];
      assert s == init + [s[n]];
      GameWinsCountGames(init);
      GameWinsAppend(init, [s[n]]);
      assert [s[n]][1..] == [];
      assert forall k :: 0 <= k < n ==> init[k] == s[k];
      assert (set k | 0 <= k < n && init[k].0 > init[k].1) == WonSet(s, n, true);
      assert (set k | 0 <= k < n && init[k].1 > init[k].0) == WonSet(s, n, false);
      assert (set k | 0 <= k < |s| && s[k].0 > s[k].1) == WonSet(s, |s|, true);
      assert (set k | 0 <= k < |s| && s[k].1 > s[k].0) == WonSet(s, |s|, false);
      WonSetStep(s, true);
      WonSetStep(s, false);
    }
  }

  /** The games among the first `n` that one side won. */
  function WonSet(s: seq<Score>, n: nat, first: bool): set<int>
    requires n <= |s|
  {
    set k | 0 <= k < n && (if first then s[k].0 > s[k].1 else s[k].1 > s[k].0)
  }

  lemma WonSetStep(s: seq<Score>, first: bool)
    requires s != []
    ensures var n := |s| - 1;
      |WonSet(s, |s|, first)| ==
      |WonSet(s, n, first)| + (if (if first then s[n].0 > s[n].1 else s[n].1 > s[n].0) then 1 else 0)
  {
    var n := |s| - 1;
    if (if first then s[n].0 > s[n].1 else s[n].1 > s[n].0) {
      assert WonSet(s, |s|, first) == WonSet(s, n, first) + {n};
    } else {
      assert WonSet(s, |s|, first) == WonSet(s, n, first);
    }
  }

  function SwapScores(s: seq<Score>): (r: seq<Score>)
    ensures |r| == |s|
    ensures forall k :: 0 <= k < |s| ==> r[k] == (s[k].1, s[k].0)
  {
    if s == [] then [] else [(s[0].1, s[0].0)] + SwapScores(s[1..])
  }

  lemma {:induction false} GameWinsSwap(s: seq<Score>)
    ensures GameWins(SwapScores(s)) == (GameWins(s).1, GameWins(s).0)
  {
    if s != [] {
      var t := SwapScores(s);
      GameWinsSwap(s[1..]);
      assert t[0] == (s[0].1, s[0].0);
      assert t[1..] == SwapScores(s[1..]);
      var rest := GameWins(s[1..]);
      assert GameWins(t[1..]) == (rest.1, rest.0);
    }
  }

  /** The player who advances from a match, if any. A bye goes to player 1; an unreported match
      or a double forfeit has no winner; otherwise game wins decide, and without game scores the
      stored totals decide; a tie at either level has no winner. */
  function DetermineWinner(m: Match): (r: Option<PlayerId>)
    ensures r.Some? ==> r == m.player1 || r == m.player2
    ensures m.player2.Some? && r.Some? ==> m.reported && !m.doubleForfeit
  {
    if m.player2.None? then m.player1
    else if !m.reported then None
    else if m.doubleForfeit then None
    else
      var scores := ExtractGameScores(m);
      if scores != [] then
        var w := GameWins(scores);
        if w.0 == w.1 then None else if w.0 > w.1 then m.player1 else m.player2
      else if m.score1.None? || m.score2.None? || m.score1 == m.score2 then None
      else if m.score1.value > m.score2.value then m.player1 else m.player2
  }

  /** What determine_winner decides, case by case. */
  lemma DetermineWinnerCases(m: Match)
    // a bye advances player 1
    ensures var r := DetermineWinner(m);
            m.player2.None? ==> r == m.player1
    // with game scores, the side with more game wins; a game-win tie gives no winner
    ensures var r := DetermineWinner(m);
            m.player2.Some? && m.reported && !m.doubleForfeit && ExtractGameScores(m) != [] ==>
              var w := GameWins(ExtractGameScores(m));
              (w.0 == w.1 ==> r.None?) && (w.0 > w.1 ==> r == m.player1) && (w.1 > w.0 ==> r == m.player2)
    // with totals only, the higher total; a missing or equal total gives no winner
    ensures var r := DetermineWinner(m);
            m.player2.Some? && m.reported && !m.doubleForfeit && ExtractGameScores(m) == [] ==>
              (m.score1.None? || m.score2.None? || m.score1 == m.score2 ==> r.None?) &&
              (m.score1.Some? && m.score2.Some? && m.score1.value > m.score2.value ==> r == m.player1) &&
              (m.score1.Some? && m.score2.Some? && m.score2.value > m.score1.value ==> r == m.player2)
  {
  }

  lemma ExtractGameScoresSwap(m: Match)
    ensures ExtractGameScores(Swap(m)) == SwapScores(ExtractGameScores(m))
  {
    var g := m.Games();
    var sg := Swap(m).Games();
    assert sg[1..][1..][1..] == [] && g[1..][1..][1..] == [];
    assert CompletedGames(sg[1..][1..]) == SwapScores(CompletedGames(g[1..][1..]));
    assert CompletedGames(sg[1..]) == SwapScores(CompletedGames(g[1..]));
  }

  /** Seen from the other side, a two-player match has the same winner. */
  lemma DetermineWinnerSymmetric(m: Match)
    requires m.player1.Some? && m.player2.Some?
    ensures DetermineWinner(Swap(m)) == DetermineWinner(m)
  {
    ExtractGameScoresSwap(m);
    GameWinsSwap(ExtractGameScores(m));
  }

  /** `", ".join(f"{s1}-{s2}" for s1, s2 in scores)` */
  function GameDetails(s: seq<Score>): string {
    if s == [] then ""
    else
      var item := IntToString(s[0].0) + "-" + IntToString(s[0].1);
      if |s| == 1 then item else item + ", " + GameDetails(s[1..])
  }

  /** Joining two runs of games puts one ", " between them: every game is listed, in order. */
  lemma {:induction false} GameDetailsAppend(a: seq<Score>, b: seq<Score>)
    requires a != [] && b != []
    ensures GameDetails(a + b) == GameDetails(a) + ", " + GameDetails(b)
    decreases |a|
  {
    assert (a + b)[0] == a[0];
    assert (a + b)[1..] == a[1..] + b;
    if |a| > 1 {
      GameDetailsAppend(a[1..], b);
    }
  }

  /** The text shown for a match: "Bye", "Double Forfeit", nothing while unreported, the totals
      when only totals exist, else game wins followed by every game's score. */
  function FormatMatchSummary(m: Match): (r: Option<string>)
    ensures r.None? <==> m.player2.Some? && !m.doubleForfeit && !m.reported
    ensures r == Some("Bye") <==> m.player2.None?
    ensures r == Some("Double Forfeit") <==> m.player2.Some? && m.doubleForfeit
    // a reported two-player match without games shows its totals ...
    ensures m.player2.Some? && !m.doubleForfeit && m.reported && ExtractGameScores(m) == [] ==>
      r == Some(IntToString(AggregatePoints(m).0) + " - " + IntToString(AggregatePoints(m).1))
    // ... and one with games shows the game wins, then every game's score
    ensures m.player2.Some? && !m.doubleForfeit && m.reported && ExtractGameScores(m) != [] ==>
      r == Some(NatToString(GameWins(ExtractGameScores(m)).0) + "-" + NatToString(GameWins(ExtractGameScores(m)).1)
                + " (" + GameDetails(ExtractGameScores(m)) + ")")
  {
    if m.player2.None? then Some("Bye")
    else if m.doubleForfeit then Some("Double Forfeit")
    else if !m.reported then None
    else
      var scores := ExtractGameScores(m);
      var totals := AggregatePoints(m);
      if scores == [] then
        var s := IntToString(totals.0) + " - " + IntToString(totals.1);
        assert s[0] == IntToString(totals.0)[0];
        Some(s)
      else
        var w := GameWins(scores);
        var s := NatToString(w.0) + "-" + NatToString(w.1) + " (" + GameDetails(scores) + ")";
        assert s[0] == NatToString(w.0)[0];
        Some(s)
  }
}
