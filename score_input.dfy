/** Reading a best-of-three score report from the form and validating it, and the row update
    that records an accepted report. */
module ScoreInput {
  import opened Wrappers
  import opened MatchRecord
  import opened Outcome

  /** One form field after whitespace is stripped: empty, an integer, or text `int()` rejects. */
  datatype Field = Blank | Int(n: int) | NotInteger

  datatype ScoreError =
    | MissingScore(game: nat)       // "Please provide both scores for Game k."
    | NotAnInteger                  // "Scores must be integers."
    | NegativeScore                 // "Scores cannot be negative."
    | UnrealisticScore(game: nat)   // "Unrealistic score in Game k. ..."
    | TiedGame                      // "Games cannot end in a tie."
    | TooFewGames                   // "Best-of-three requires at least two completed games."
    | TooManyWins                   // "Best-of-three only allows up to two wins per player."
    | NoDecisiveWinner              // "Please enter a decisive match winner."
    | WinnerBelowTwo                // "Winner must reach two game wins in best-of-three play."
    | BothReachTwo                  // "Only one player can win two games in best-of-three."

  const MaxScore := 99

  predicate ValidGame(s: Score) {
    0 <= s.0 <= MaxScore && 0 <= s.1 <= MaxScore && s.0 != s.1
  }

  /** The checks applied to game number `game`: a game with both fields empty is skipped. */
  function ParseGame(game: nat, f1: Field, f2: Field): (r: Result<Option<Score>, ScoreError>)
    ensures r.Ok? && r.value.Some? ==> ValidGame(r.value.value)
    ensures r == Ok(None) <==> f1.Blank? && f2.Blank?
    ensures r.Ok? && r.value.Some? ==> f1 == Int(r.value.value.0) && f2 == Int(r.value.value.1)
    ensures f1.Int? && f2.Int? ==> (r.Ok? <==> ValidGame((f1.n, f2.n)))
  {
    if f1.Blank? && f2.Blank? then Ok(None)
    else if f1.Blank? || f2.Blank? then Err(MissingScore(game))
    else if f1.NotInteger? || f2.NotInteger? then Err(NotAnInteger)
    else if f1.n < 0 || f2.n < 0 then Err(NegativeScore)
    else if f1.n > MaxScore || f2.n > MaxScore then Err(UnrealisticScore(game))
    else if f1.n == f2.n then Err(TiedGame)
    else Ok(Some((f1.n, f2.n)))
  }

  /** What the parse of the first |form| games yields: the first error met, or the games read. */
  function ParsedScores(form: seq<(Field, Field)>): (r: Result<seq<Score>, ScoreError>)
    ensures r.Ok? ==> |r.value| <= |form| && forall k :: 0 <= k < |r.value| ==> ValidGame(r.value[k])
    decreases |form|
  {
    if form == [] then Ok([])
    else
      var last := form[|form| - 1];
      match ParsedScores(form[..|form| - 1])
      case Err(e) => Err(e)
      case Ok(prev) =>
        match ParseGame(|form|, last.0, last.1)
        case Err(e) => Err(e)
        case Ok(None) => Ok(prev)
        case Ok(Some(s)) => Ok(prev + [s])
  }

  lemma {:induction false} ParsedScoresErrorSticks(form: seq<(Field, Field)>, j: nat)
    requires j <= |form| && ParsedScores(form[..j]).Err?
    ensures ParsedScores(form) == ParsedScores(form[..j])
    decreases |form| - j
  {
    if j < |form| {
      assert form[..j + 1][..j] == form[..j];
      ParsedScoresErrorSticks(form, j + 1);
    } else {
      assert form[..j] == form;
    }
  }

  /** parse_best_of_three_scores: reads the games in order, skipping empty ones and stopping at
      the first game that fails a check. */
  method ParseBestOfThreeScores(form: seq<(Field, Field)>) returns (r: Result<seq<Score>, ScoreError>)
    ensures r == ParsedScores(form)
  {
    var scores: seq<Score> := [];
    var i := 0;
    while i < |form|
      invariant 0 <= i <= |form|
      invariant ParsedScores(form[..i]) == Ok(scores)
    {
      assert form[..i + 1][..i] == form[..i];
      var game := ParseGame(i + 1, form[i].0, form[i].1);
      if game.Err? {
        ParsedScoresErrorSticks(form, i + 1);
        return Err(game.error);
      }
      if game.value.Some? {
        scores := scores + [game.value.value];
      }
      i := i + 1;
    }
    assert form[..i] == form;
    return Ok(scores);
  }

  /** A game with exactly one of its two fields filled in makes the whole report fail. */
  lemma {:induction false} HalfFilledGameRejected(form: seq<(Field, Field)>, k: nat)
    requires k < |form| && (form[k].0.Blank? != form[k].1.Blank?)
    ensures ParsedScores(form).Err?
  {
    assert form[..k + 1][..k] == form[..k];
    assert ParsedScores(form[..k + 1]).Err?;
    ParsedScoresErrorSticks(form, k + 1);
  }

  /** The form a player fills in for the games `s`, the remaining games left empty. */
  function FormFor(s: seq<Score>, games: nat): (form: seq<(Field, Field)>)
    requires |s| <= games
    ensures |form| == games
  {
    seq(games, k => if 0 <= k < |s| then (Int(s[k].0), Int(s[k].1)) else (Blank, Blank))
  }

  /** Any list of valid games, entered on a form, is read back exactly. */
  lemma {:induction false} ParseFormRoundTrip(s: seq<Score>, games: nat)
    requires |s| <= games
    requires forall k :: 0 <= k < |s| ==> ValidGame(s[k])
    ensures ParsedScores(FormFor(s, games)) == Ok(s)
    decreases games
  {
    if games > 0 {
      if |s| == games {
        var front := s[..games - 1];
        assert forall k :: 0 <= k < |front| ==> ValidGame(front[k]);
        ParseFormRoundTrip(front, games - 1);
        FilledFormStep(s, games, front);
      } else {
        ParseFormRoundTrip(s, games - 1);
        BlankFormStep(s, games);
      }
    }
  }

  /** A form whose last game is filled in reads back one more game than the form before it. */
  lemma FilledFormStep(s: seq<Score>, games: nat, front: seq<Score>)
    requires 0 < games == |s| && front == s[..games - 1] && ValidGame(s[games - 1])
    requires ParsedScores(FormFor(front, games - 1)) == Ok(front)
    ensures ParsedScores(FormFor(s, games)) == Ok(s)
  {
    FormForLast(s, games);
    ParsedGameStep(FormFor(s, games), front, s[games - 1]);
    assert front + [s[games - 1]] == s;
  }

  /** A form whose last game is left empty reads back what the form before it does. */
  lemma BlankFormStep(s: seq<Score>, games: nat)
    requires |s| < games
    requires ParsedScores(FormFor(s, games - 1)) == Ok(s)
    ensures ParsedScores(FormFor(s, games)) == Ok(s)
  {
    FormForLast(s, games);
    ParsedBlankStep(FormFor(s, games), s);
  }


  /** The form for `s` is the form for all but its last game, then that game's two fields. */
  lemma FormForLast(s: seq<Score>, games: nat)
    requires 0 < games && |s| <= games
    ensures var form := FormFor(s, games);
      && form[..games - 1] == FormFor(if |s| == games then s[..games - 1] else s, games - 1)
      && form[games - 1] == (if |s| == games then (Int(s[games - 1].0), Int(s[games - 1].1)) else (Blank, Blank))
  {
    var form := FormFor(s, games);
    assert form[..games - 1] == FormFor(if |s| == games then s[..games - 1] else s, games - 1);
  }


  /** A valid last game is read after the games before it. */
  lemma ParsedGameStep(form: seq<(Field, Field)>, prev: seq<Score>, x: Score)
    requires form != [] && ParsedScores(form[..|form| - 1]) == Ok(prev)
    requires form[|form| - 1] == (Int(x.0), Int(x.1)) && ValidGame(x)
    ensures ParsedScores(form) == Ok(prev + [x])
  {
    var last := form[|form| - 1];
    assert ParseGame(|form|, last.0, last.1) == Ok(Some(x)) by {
      ValidGameParsed(|form|, x);
    }
  }

  /** A valid game, entered as two integers, is read back. */
  lemma ValidGameParsed(game: nat, x: Score)
    requires ValidGame(x)
    ensures ParseGame(game, Int(x.0), Int(x.1)) == Ok(Some(x))
  {
  }

  /** An empty last game is skipped. */
  lemma ParsedBlankStep(form: seq<(Field, Field)>, prev: seq<Score>)
    requires form != [] && ParsedScores(form[..|form| - 1]) == Ok(prev)
    requires form[|form| - 1] == (Blank, Blank)
    ensures ParsedScores(form) == Ok(prev)
  {
  }


  /** validate_best_of_three: returns the game wins, or the first rule the games break. */
  function ValidateBestOfThree(s: seq<Score>): (r: Result<(nat, nat), ScoreError>)
    ensures r.Ok? <==> |s| >= 2 && var w := GameWins(s);
      (w.0 == 2 && w.1 <= 1) || (w.1 == 2 && w.0 <= 1)
    ensures r.Ok? ==> r.value == GameWins(s)
  {
    if |s| < 2 then Err(TooFewGames)
    else
      var w := GameWins(s);
      if w.0 > 2 || w.1 > 2 then Err(TooManyWins)
      else if w.0 == w.1 then Err(NoDecisiveWinner)
      else if w.0 < 2 && w.1 < 2 then Err(WinnerBelowTwo)
      else if w.0 >= 2 && w.1 >= 2 then Err(BothReachTwo)
      else Ok(w)
  }

  function Slot(s: seq<Score>, k: nat): GameSlot {
    if k < |s| then GameSlot(Some(s[k].0), Some(s[k].1)) else EmptySlot
  }

  /** The row update of a score report: totals, the games padded with NULLs to three,
      the forfeit flag cleared and the match marked reported. */
  function RecordReport(m: Match, s: seq<Score>): (r: Match)
    requires |s| <= MaxGames
    ensures r.id == m.id && r.player1 == m.player1 && r.player2 == m.player2
    ensures r.reported && !r.doubleForfeit
    // the stored totals are the sums of the reported games
    ensures r.score1 == Some(SumFirst(s)) && r.score2 == Some(SumSecond(s))
    // the row keeps its place: week, playoff flag, playoff round and match number
    ensures r.week == m.week && r.playoff == m.playoff && r.playoffRound == m.playoffRound &&
            r.matchNumber == m.matchNumber
  {
    m.(score1 := Some(SumFirst(s)), score2 := Some(SumSecond(s)),
       game1 := Slot(s, 0), game2 := Slot(s, 1), game3 := Slot(s, 2),
       doubleForfeit := false, reported := true)
  }

  /** The recorded games are exactly the games reported, so the aggregate points of the
      recorded row are its stored totals. */
  lemma ExtractRecordedGames(m: Match, s: seq<Score>)
    requires |s| <= MaxGames
    ensures ExtractGameScores(RecordReport(m, s)) == s
    ensures var r := RecordReport(m, s); AggregatePoints(r) == (r.score1.GetOr(0), r.score2.GetOr(0))
  {
    var g := RecordReport(m, s).Games();
    assert g == [Slot(s, 0), Slot(s, 1), Slot(s, 2)];
    assert g[1..][1..][1..] == [];
    if |s| == 0 {
    } else if |s| == 1 {
      assert CompletedGames(g[1..]) == [];
      assert s == [s[0]];
    } else if |s| == 2 {
      assert CompletedGames(g[1..][1..]) == [];
      assert s == [s[0]] + [s[1]];
    } else {
      assert CompletedGames(g[1..][1..]) == [s[2]];
      assert CompletedGames(g[1..]) == [s[1], s[2]];
      assert s == [s[0], s[1], s[2]];
    }
  }

  /** An accepted report decides the match for the side that won two games, and no stored
      report has fewer than two decisive games. */
  lemma ValidatedReportWinner(m: Match, s: seq<Score>)
    requires m.player1.Some? && m.player2.Some?
    requires |s| <= MaxGames && ValidateBestOfThree(s).Ok?
    ensures |ExtractGameScores(RecordReport(m, s))| >= 2
    ensures DetermineWinner(RecordReport(m, s)) ==
              if GameWins(s).0 == 2 then m.player1 else m.player2
  {
    ExtractRecordedGames(m, s);
  }

  /** Parsing then validating a form: the outcome of a well-formed three-game form. */
  lemma ParsedThenValidated(s: seq<Score>)
    requires |s| <= MaxGames && forall k :: 0 <= k < |s| ==> ValidGame(s[k])
    ensures ParsedScores(FormFor(s, MaxGames)) == Ok(s)
    ensures ValidateBestOfThree(s).Ok? ==> GameWins(s).0 + GameWins(s).1 == |s| <= 3
  {
    ParseFormRoundTrip(s, MaxGames);
  }
}
