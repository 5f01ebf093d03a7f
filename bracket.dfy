/** The playoff bracket engine over the league's mutable state: the `matches` table (rows in id
    order, with the id the next inserted row receives) and the `current_playoff_round` setting.
    Each method performs in place, row by row, the step that module Advancement states as a
    function of the table. The rule for the order of rounds (`strict`) and the rule for crowning
    from the play-ins (`crownInPlayIns`) are parameters, so the same methods run both the code as
    written and the corrected rules. */
module Bracket {
  import opened Wrappers
  import opened MatchRecord
  import opened Outcome
  import opened Standings
  import opened Seeding
  import opened Advancement

  /** The table after `DELETE FROM matches WHERE playoff = 1`. */
  function PlayoffRowsRemoved(ms: seq<Match>): (r: seq<Match>)
    ensures |r| <= |ms|
    ensures forall m :: m in r <==> m in ms && !m.playoff
  {
    if ms == [] then []
    else (if ms[0].playoff then [] else [ms[0]]) + PlayoffRowsRemoved(ms[1..])
  }

  /** Deleting rows keeps the remaining ids increasing. */
  lemma {:induction false} PlayoffRowsRemovedIncreasing(ms: seq<Match>)
    requires IdsIncrease(ms)
    ensures IdsIncrease(PlayoffRowsRemoved(ms))
  {
    if ms != [] {
      var rest := PlayoffRowsRemoved(ms[1..]);
      PlayoffRowsRemovedIncreasing(ms[1..]);
      forall k | 0 <= k < |rest| ensures ms[0].id < rest[k].id {
        assert rest[k] in ms[1..];
      }
    }
  }

  lemma PlayoffRowsRemovedWellFormed(t: Table)
    requires WellFormed(t)
    ensures WellFormed(t.(matches := PlayoffRowsRemoved(t.matches)))
  {
    PlayoffRowsRemovedIncreasing(t.matches);
    var kept := PlayoffRowsRemoved(t.matches);
    forall k | 0 <= k < |kept| ensures kept[k].id < t.nextId {
      assert kept[k] in t.matches;
    }
  }

  /** The seeds: player ids in ranking order. */
  function Seeds(ranked: seq<RankedRow>): (seeds: seq<PlayerId>)
    ensures |seeds| == |ranked|
  {
    seq(|ranked|, i requires 0 <= i < |ranked| => ranked[i].row.playerId)
  }

  /** The seeds create_playoff_bracket uses: the regular-season standings once the old playoff
      rows are gone. */
  function BracketSeeds(players: seq<Player>, ms: seq<Match>): seq<PlayerId> {
    Seeds(Standings.Standings(players, PlayoffRowsRemoved(ms), false))
  }

  /** Unplayed playoff rows of round `r` for the given pairs, numbered 1, 2, ... */
  function PairRows(pairs: seq<(PlayerId, PlayerId)>, r: int, firstId: int): (rows: seq<Match>)
    ensures |rows| == |pairs|
    ensures forall i :: 0 <= i < |rows| ==> rows[i].InPlayoffRound(r) && !rows[i].reported
  {
    seq(|pairs|, i requires 0 <= i < |pairs| =>
      NewPlayoffMatch(firstId + i, Some(pairs[i].0), Some(pairs[i].1), r, i + 1, None, false))
  }

  /** The round-0 rows of the play-in games, numbered by the seed their winner takes. */
  function PlayInRows(playIns: seq<PlayIn>, firstId: int): (rows: seq<Match>)
    ensures |rows| == |playIns|
    ensures forall i :: 0 <= i < |rows| ==> rows[i].InPlayoffRound(0) && !rows[i].reported
  {
    seq(|playIns|, i requires 0 <= i < |playIns| =>
      NewPlayoffMatch(firstId + i, Some(playIns[i].player1), Some(playIns[i].player2), 0,
                      playIns[i].targetSeed, None, false))
  }

  /** The round-1 rows of a bracket with play-ins, empty where a play-in winner will sit. */
  function RoundOneRows(slots: seq<RoundOneSlot>, firstId: int): (rows: seq<Match>)
    ensures |rows| == |slots|
    ensures forall i :: 0 <= i < |rows| ==> rows[i].InPlayoffRound(1) && !rows[i].reported
  {
    seq(|slots|, i requires 0 <= i < |slots| =>
      NewPlayoffMatch(firstId + i, slots[i].player1, slots[i].player2, 1, slots[i].matchNumber, None, false))
  }

  /** The table and current round once the rows of a plan are inserted after `kept`. */
  function PlanTable(kept: seq<Match>, nextId: int, plan: Plan): (Table, int) {
    match plan
    case NoPlayoffs => (Table(kept, nextId), -1)
    case Direct(pairs) => (Table(kept + PairRows(pairs, 1, nextId), nextId + |pairs|), 1)
    case WithPlayIns(_, _, playIns, roundOne) =>
      (Table(kept + PlayInRows(playIns, nextId) + RoundOneRows(roundOne, nextId + |playIns|),
             nextId + |playIns| + |roundOne|), 0)
  }

  /** create_playoff_bracket as a function of the table: the old playoff rows removed, the
      rows of the seeding plan inserted, and the new current playoff round. */
  function SeedBracket(t: Table, seeds: seq<PlayerId>): (Table, int) {
    PlanTable(PlayoffRowsRemoved(t.matches), t.nextId, BracketPlan(seeds))
  }

  lemma {:induction false} RoundMatchesAllInRound(rows: seq<Match>, r: int)
    requires forall i :: 0 <= i < |rows| ==> rows[i].InPlayoffRound(r)
    ensures RoundMatches(rows, r) == rows
  {
    if rows != [] {
      assert rows[0].InPlayoffRound(r);
      RoundMatchesAllInRound(rows[1..], r);
    }
  }

  lemma {:induction false} RoundMatchesNoneInRound(rows: seq<Match>, r: int)
    requires forall i :: 0 <= i < |rows| ==> !rows[i].InPlayoffRound(r)
    ensures RoundMatches(rows, r) == []
  {
    if rows != [] {
      assert !rows[0].InPlayoffRound(r);
      RoundMatchesNoneInRound(rows[1..], r);
    }
  }

  /** No round has a row once the playoff rows are removed. */
  lemma NoRoundsRemain(ms: seq<Match>, q: int)
    ensures RoundMatches(PlayoffRowsRemoved(ms), q) == []
  {
    var kept := PlayoffRowsRemoved(ms);
    forall i | 0 <= i < |kept| ensures !kept[i].InPlayoffRound(q) {
      assert kept[i] in kept;
    }
    RoundMatchesNoneInRound(kept, q);
  }

  /** The rounds of the kept rows followed by new rows all in round r. */
  lemma RoundsAfterAppend(ms: seq<Match>, rows: seq<Match>, r: int, q: int)
    requires forall i :: 0 <= i < |rows| ==> rows[i].InPlayoffRound(r)
    ensures RoundMatches(PlayoffRowsRemoved(ms) + rows, q) == if q == r then rows else []
  {
    var kept := PlayoffRowsRemoved(ms);
    NoRoundsRemain(ms, q);
    RoundMatchesAppend(kept, rows, q);
    if q == r {
      RoundMatchesAllInRound(rows, r);
      assert [] + rows == rows;
    } else {
      RoundMatchesNoneInRound(rows, q);
    }
  }

  /** The rounds of the kept rows followed by play-in rows and round-1 rows. */
  lemma RoundsAfterPlayIns(ms: seq<Match>, playIns: seq<PlayIn>, slots: seq<RoundOneSlot>, firstId: int, q: int)
    ensures RoundMatches(PlayoffRowsRemoved(ms) + PlayInRows(playIns, firstId) + RoundOneRows(slots, firstId + |playIns|), q) ==
      if q == 0 then PlayInRows(playIns, firstId)
      else if q == 1 then RoundOneRows(slots, firstId + |playIns|)
      else []
  {
    var zero := PlayInRows(playIns, firstId);
    var one := RoundOneRows(slots, firstId + |playIns|);
    var front := PlayoffRowsRemoved(ms) + zero;
    RoundsAfterAppend(ms, zero, 0, q);
    RoundMatchesAppend(front, one, q);
    assert RoundMatches(front + one, q) == RoundMatches(front, q) + RoundMatches(one, q);
    if q == 1 {
      RoundMatchesAllInRound(one, 1);
      assert RoundMatches(front, q) == [];
    } else {
      RoundMatchesNoneInRound(one, q);
      assert RoundMatches(front, q) + [] == RoundMatches(front, q);
    }
  }

  /** Seeding inserts its rows with fresh ids. */
  lemma PlanTableWellFormed(kept: seq<Match>, nextId: int, plan: Plan)
    requires WellFormed(Table(kept, nextId))
    ensures WellFormed(PlanTable(kept, nextId, plan).0)
  {
    var t := Table(kept, nextId);
    match plan
    case NoPlayoffs =>
    case Direct(pairs) =>
      AppendWellFormed(t, PairRows(pairs, 1, nextId));
    case WithPlayIns(_, _, playIns, roundOne) =>
      var zero := PlayInRows(playIns, nextId);
      AppendWellFormed(t, zero);
      AppendWellFormed(Table(kept + zero, nextId + |playIns|), RoundOneRows(roundOne, nextId + |playIns|));
  }

  /** The playoff rounds of a seeded table are exactly the plan's new rows. */
  lemma {:induction false} PlanTableRounds(ms: seq<Match>, nextId: int, plan: Plan, q: int)
    ensures var (after, current) := PlanTable(PlayoffRowsRemoved(ms), nextId, plan);
      match plan
      case NoPlayoffs => current == -1 && RoundMatches(after.matches, q) == []
      case Direct(pairs) =>
        current == 1 && RoundMatches(after.matches, q) == if q == 1 then PairRows(pairs, 1, nextId) else []
      case WithPlayIns(_, _, playIns, roundOne) =>
        current == 0 && RoundMatches(after.matches, q) ==
          if q == 0 then PlayInRows(playIns, nextId)
          else if q == 1 then RoundOneRows(roundOne, nextId + |playIns|)
          else []
  {
    match plan
    case NoPlayoffs =>
      NoRoundsRemain(ms, q);
    case Direct(pairs) =>
      RoundsAfterAppend(ms, PairRows(pairs, 1, nextId), 1, q);
    case WithPlayIns(_, _, playIns, roundOne) =>
      RoundsAfterPlayIns(ms, playIns, roundOne, nextId, q);
  }

  /** After seeding, the playoff rounds hold exactly the new rows: fewer than two players leave
      no playoff round and the playoffs inactive; a power-of-two field has only round 1,
      pairing seed k with seed n+1-k; a field with play-ins has the play-in games in round 0
      and the round-1 slots in round 1. The current round is where play starts. */
  lemma SeededRounds(t: Table, seeds: seq<PlayerId>, q: int)
    ensures var (after, current) := SeedBracket(t, seeds);
      && (|seeds| < 2 ==> current == -1 && RoundMatches(after.matches, q) == [])
      && (BracketPlan(seeds).Direct? ==>
            current == 1 && RoundMatches(after.matches, q) ==
              if q == 1 then PairRows(FirstRoundPairs(seeds), 1, t.nextId) else [])
      && (BracketPlan(seeds).WithPlayIns? ==>
            var p := BracketPlan(seeds);
            current == 0 && RoundMatches(after.matches, q) ==
              if q == 0 then PlayInRows(p.playIns, t.nextId)
              else if q == 1 then RoundOneRows(p.roundOne, t.nextId + |p.playIns|)
              else [])
  {
    PlanTableRounds(t.matches, t.nextId, BracketPlan(seeds), q);
  }

  /** A row as it stands after reports: only its outcome columns may differ from `before`. */
  predicate OutcomesOnly(before: Match, after: Match) {
    after == before.(score1 := after.score1, score2 := after.score2, game1 := after.game1,
                     game2 := after.game2, game3 := after.game3, reported := after.reported,
                     doubleForfeit := after.doubleForfeit)
  }

  /** The rows `ms` are the rows `seeded` after some of them were reported. */
  predicate ReportedFrom(seeded: seq<Match>, ms: seq<Match>) {
    |ms| == |seeded| && forall i :: 0 <= i < |ms| ==> OutcomesOnly(seeded[i], ms[i])
  }

  /** Seat of seed `s` in a round-1 row of a bracket of `size`: player 1 of the row numbered s
      or player 2 of the row numbered size+1-s. */
  predicate SeatOfSeed(m: Match, s: int, size: int, id: PlayerId) {
    m.InPlayoffRound(1)
    && ((m.matchNumber == Some(s) && m.player1 == Some(id))
        || (m.matchNumber == Some(size + 1 - s) && m.player2 == Some(id)))
  }

  /** Reported rows stay in the playoff rounds they were in. */
  lemma ReportedKeepsRounds(seeded: seq<Match>, ms: seq<Match>, lo: int, hi: int, in0: bool, in1: bool)
    requires ReportedFrom(seeded, ms) && 0 <= lo <= hi <= |ms|
    requires forall i :: lo <= i < hi ==> seeded[i].InPlayoffRound(0) == in0 && seeded[i].InPlayoffRound(1) == in1
    ensures forall i :: 0 <= i < hi - lo ==> ms[lo..hi][i].InPlayoffRound(0) == in0 && ms[lo..hi][i].InPlayoffRound(1) == in1
  {
    forall i | 0 <= i < hi - lo ensures ms[lo..hi][i].InPlayoffRound(0) == in0 && ms[lo..hi][i].InPlayoffRound(1) == in1 {
      assert OutcomesOnly(seeded[lo + i], ms[lo + i]);
    }
  }

  /** The rounds of the rows of a seeded table, part by part. */
  lemma SeededParts(kept: seq<Match>, zero: seq<Match>, one: seq<Match>)
    requires forall m :: m in kept ==> !m.playoff
    requires forall i :: 0 <= i < |zero| ==> zero[i].InPlayoffRound(0)
    requires forall i :: 0 <= i < |one| ==> one[i].InPlayoffRound(1)
    ensures var seeded, x, y := kept + zero + one, |kept|, |kept| + |zero|;
      && (forall i :: 0 <= i < x ==> seeded[i].InPlayoffRound(0) == false && seeded[i].InPlayoffRound(1) == false)
      && (forall i :: x <= i < y ==> seeded[i].InPlayoffRound(0) == true && seeded[i].InPlayoffRound(1) == false)
      && (forall i :: y <= i < |seeded| ==> seeded[i].InPlayoffRound(0) == false && seeded[i].InPlayoffRound(1) == true)
  {
    var seeded, x, y := kept + zero + one, |kept|, |kept| + |zero|;
    forall i | 0 <= i < x ensures !seeded[i].InPlayoffRound(0) && !seeded[i].InPlayoffRound(1) {
      assert seeded[i] in kept;
    }
    forall i | x <= i < y ensures seeded[i].InPlayoffRound(0) && !seeded[i].InPlayoffRound(1) {
      assert seeded[i] == zero[i - x];
    }
    forall i | y <= i < |seeded| ensures !seeded[i].InPlayoffRound(0) && seeded[i].InPlayoffRound(1) {
      assert seeded[i] == one[i - y];
    }
  }

  /** Reports leave the rounds of a seeded table where they were: round 0 is still the play-in
      rows and round 1 the round-1 rows. */
  lemma ReportedRounds(kept: seq<Match>, zero: seq<Match>, one: seq<Match>, ms: seq<Match>)
    requires forall m :: m in kept ==> !m.playoff
    requires forall i :: 0 <= i < |zero| ==> zero[i].InPlayoffRound(0)
    requires forall i :: 0 <= i < |one| ==> one[i].InPlayoffRound(1)
    requires ReportedFrom(kept + zero + one, ms)
    ensures RoundMatches(ms, 0) == ms[|kept|..|kept| + |zero|]
    ensures RoundMatches(ms, 1) == ms[|kept| + |zero|..]
  {
    var seeded := kept + zero + one;
    var x, y := |kept|, |kept| + |zero|;
    var a, b, c := ms[0..x], ms[x..y], ms[y..|ms|];
    ReportedParts(kept, zero, one, ms, a, b, c);
    SplitThree(ms, x, y);
  }

  /** The reported copies of the kept rows, the play-in rows and the round-1 rows keep their
      rounds. */
  lemma ReportedParts(kept: seq<Match>, zero: seq<Match>, one: seq<Match>, ms: seq<Match>,
                      a: seq<Match>, b: seq<Match>, c: seq<Match>)
    requires forall m :: m in kept ==> !m.playoff
    requires forall i :: 0 <= i < |zero| ==> zero[i].InPlayoffRound(0)
    requires forall i :: 0 <= i < |one| ==> one[i].InPlayoffRound(1)
    requires ReportedFrom(kept + zero + one, ms)
    requires a == ms[0..|kept|] && b == ms[|kept|..|kept| + |zero|] && c == ms[|kept| + |zero|..|ms|]
    ensures RoundMatches(a + b + c, 0) == b && RoundMatches(a + b + c, 1) == c
  {
    var seeded := kept + zero + one;
    var x, y := |kept|, |kept| + |zero|;
    SeededParts(kept, zero, one);
    ReportedKeepsRounds(seeded, ms, 0, x, false, false);
    ReportedKeepsRounds(seeded, ms, x, y, true, false);
    ReportedKeepsRounds(seeded, ms, y, |ms|, false, true);
    RoundsOfThreeParts(a, b, c);
  }

  /** A sequence is its three consecutive slices. */
  lemma SplitThree(ms: seq<Match>, x: int, y: int)
    requires 0 <= x <= y <= |ms|
    ensures ms == ms[0..x] + ms[x..y] + ms[y..|ms|]
  {
  }


  /** The play-in rows of a reported seeded table keep their match numbers. */
  lemma ReportedPlayIns(kept: seq<Match>, zero: seq<Match>, one: seq<Match>, ms: seq<Match>)
    requires forall m :: m in kept ==> !m.playoff
    requires forall i :: 0 <= i < |zero| ==> zero[i].InPlayoffRound(0)
    requires forall i :: 0 <= i < |one| ==> one[i].InPlayoffRound(1)
    requires ReportedFrom(kept + zero + one, ms)
    ensures |RoundMatches(ms, 0)| == |zero| && |RoundMatches(ms, 1)| == |one|
    ensures forall k :: 0 <= k < |zero| ==> RoundMatches(ms, 0)[k].matchNumber == zero[k].matchNumber
  {
    ReportedRounds(kept, zero, one, ms);
    var seeded := kept + zero + one;
    forall k | 0 <= k < |zero| ensures RoundMatches(ms, 0)[k].matchNumber == zero[k].matchNumber {
      assert RoundMatches(ms, 0)[k] == ms[|kept| + k] && seeded[|kept| + k] == zero[k];
      assert OutcomesOnly(seeded[|kept| + k], ms[|kept| + k]);
    }
  }

  /** Rows outside rounds 0 and 1, then rows of round 0, then rows of round 1. */
  lemma RoundsOfThreeParts(a: seq<Match>, b: seq<Match>, c: seq<Match>)
    requires forall i :: 0 <= i < |a| ==> a[i].InPlayoffRound(0) == false && a[i].InPlayoffRound(1) == false
    requires forall i :: 0 <= i < |b| ==> b[i].InPlayoffRound(0) == true && b[i].InPlayoffRound(1) == false
    requires forall i :: 0 <= i < |c| ==> c[i].InPlayoffRound(0) == false && c[i].InPlayoffRound(1) == true
    ensures RoundMatches(a + b + c, 0) == b && RoundMatches(a + b + c, 1) == c
  {
    RoundMatchesAppend(a + b, c, 0);
    RoundMatchesAppend(a + b, c, 1);
    RoundMatchesAppend(a, b, 0);
    RoundMatchesAppend(a, b, 1);
    RoundMatchesNoneInRound(a, 0);
    RoundMatchesNoneInRound(a, 1);
    RoundMatchesAllInRound(b, 0);
    RoundMatchesNoneInRound(b, 1);
    RoundMatchesNoneInRound(c, 0);
    RoundMatchesAllInRound(c, 1);
    assert [] + b + [] == b && [] + [] + c == c;
  }

  /** The shape of a seeding plan with play-ins: an even bracket size, half as many round-1
      slots, and play-in i played for seed target-i. */
  predicate PlayInShape(p: Plan) {
    && p.WithPlayIns? && p.target % 2 == 0 && |p.roundOne| == p.target / 2
    && forall k :: 0 <= k < |p.playIns| ==> p.playIns[k].targetSeed == p.target - k
  }

  /** The winner w of the play-in round is collected and keyed by seed s. */
  predicate KeyedWinner(ms: seq<Match>, s: int, w: PlayerId) {
    KeyedWinnerIn(RoundMatches(ms, 0), s, w)
  }

  /** The winner w of the rows rm is collected and keyed by seed s. */
  predicate KeyedWinnerIn(rm: seq<Match>, s: int, w: PlayerId) {
    w in CollectWinners(rm) && s in SeedToWinner(rm) && SeedToWinner(rm)[s] == w
  }

  /** Row j is a round-1 row holding the open seat of seed s, in a bracket of twice as many
      seeds as round 1 has rows. */
  predicate OpenSeatOfSeed(ms: seq<Match>, j: int, s: int) {
    && 0 <= j < |ms|
    && var row := ms[j]; var size := 2 * |RoundMatches(ms, 1)|;
    && row.InPlayoffRound(1) && row.matchNumber.Some? && row.matchNumber.value != 0
    && ((row.matchNumber == Some(s) && row.player1.None?)
        || (row.matchNumber == Some(size + 1 - s) && row.player2.None?))
  }

  /** The play-in round is complete, its winner w is keyed by seed s, and row j holds the open
      round-1 seat of seed s. */
  predicate PlayInSeatOpen(t: Table, j: int, s: int, w: PlayerId) {
    RoundIsComplete(RoundMatches(t.matches, 0)) && KeyedWinner(t.matches, s, w) && OpenSeatOfSeed(t.matches, j, s)
  }

  /** The winner of a decided play-in of a reported seeded table is keyed by its target seed. */
  lemma PlayInWinnerKeyed(kept: seq<Match>, nextId: int, p: Plan, ms: seq<Match>, i: int, w: PlayerId)
    requires forall m :: m in kept ==> !m.playoff
    requires PlayInShape(p)
    requires ReportedFrom(PlanTable(kept, nextId, p).0.matches, ms)
    requires 0 <= i < |p.playIns|
    requires |kept| + i < |ms| && DetermineWinner(ms[|kept| + i]) == Some(w)
    ensures KeyedWinner(ms, p.playIns[i].targetSeed, w)
    ensures 2 * |RoundMatches(ms, 1)| == p.target
  {
    var c := |p.playIns|;
    var zero := PlayInRows(p.playIns, nextId);
    var one := RoundOneRows(p.roundOne, nextId + c);
    assert PlanTable(kept, nextId, p).0.matches == kept + zero + one;
    PlayInRowNumbers(p.playIns, nextId, p.target);
    ReportedPlayInKeyed(kept, zero, one, ms, i, w, p.target);
    assert p.playIns[i].targetSeed == p.target - i;
  }

  /** Play-in k is played for seed target-k, so its row is numbered target-k. */
  lemma PlayInRowNumbers(playIns: seq<PlayIn>, nextId: int, target: int)
    requires forall k :: 0 <= k < |playIns| ==> playIns[k].targetSeed == target - k
    ensures forall k :: 0 <= k < |playIns| ==> PlayInRows(playIns, nextId)[k].matchNumber == Some(target - k)
  {
  }

  /** In a reported table of kept rows, play-in rows numbered target, target-1, ... and round-1
      rows, the winner w of play-in i is collected and keyed by target-i. */
  lemma ReportedPlayInKeyed(kept: seq<Match>, zero: seq<Match>, one: seq<Match>, ms: seq<Match>, i: int,
                            w: PlayerId, target: int)
    requires forall m :: m in kept ==> !m.playoff
    requires forall k :: 0 <= k < |zero| ==> zero[k].InPlayoffRound(0)
    requires forall k :: 0 <= k < |one| ==> one[k].InPlayoffRound(1)
    requires forall k :: 0 <= k < |zero| ==> zero[k].matchNumber == Some(target - k)
    requires ReportedFrom(kept + zero + one, ms)
    requires 0 <= i < |zero| && DetermineWinner(ms[|kept| + i]) == Some(w)
    ensures KeyedWinnerIn(RoundMatches(ms, 0), target - i, w)
    ensures |RoundMatches(ms, 1)| == |one|
  {
    ReportedRounds(kept, zero, one, ms);
    ReportedPlayIns(kept, zero, one, ms);
    var rm := RoundMatches(ms, 0);
    assert rm[i] == ms[|kept| + i];
    KeyedByNumber(rm, i, w, target);
  }


  /** In rows numbered target, target-1, ..., the winner w of row i is collected and keyed by
      target-i. */
  lemma KeyedByNumber(rm: seq<Match>, i: int, w: PlayerId, target: int)
    requires forall k :: 0 <= k < |rm| ==> rm[k].matchNumber == Some(target - k)
    requires 0 <= i < |rm| && DetermineWinner(rm[i]) == Some(w)
    ensures KeyedWinnerIn(rm, target - i, w)
  {
    SeedToWinnerDistinct(rm, i);
    WinnerCollected(rm, i);
  }

  /** The round-1 row of a reported seeded table that holds the empty seat of a play-in's
      target seed. */
  lemma PlayInSeatRow(kept: seq<Match>, nextId: int, seeds: seq<PlayerId>, ms: seq<Match>, i: int) returns (j: int)
    requires forall m :: m in kept ==> !m.playoff
    requires BracketPlan(seeds).WithPlayIns?
    requires ReportedFrom(PlanTable(kept, nextId, BracketPlan(seeds)).0.matches, ms)
    requires 0 <= i < |BracketPlan(seeds).playIns|
    ensures OpenSeatOfSeed(ms, j, BracketPlan(seeds).playIns[i].targetSeed)
  {
    PlanCounts(seeds);
    var k := PlayInSeat(seeds, i);
    j := RoundOneSeatRow(kept, nextId, BracketPlan(seeds), ms, k, BracketPlan(seeds).playIns[i].targetSeed);
  }

  /** The round-1 row numbered k of a reported table built from a plan with play-ins, where
      slot k has the empty seat of seed s, is the open seat of seed s. */
  lemma RoundOneSeatRow(kept: seq<Match>, nextId: int, p: Plan, ms: seq<Match>, k: int, s: int) returns (j: int)
    requires forall m :: m in kept ==> !m.playoff
    requires p.WithPlayIns? && 2 * |p.roundOne| == p.target
    requires ReportedFrom(PlanTable(kept, nextId, p).0.matches, ms)
    requires 1 <= k <= |p.roundOne| && p.roundOne[k - 1].matchNumber == k
    requires (k == s && p.roundOne[k - 1].player1.None?) || (k == p.target + 1 - s && p.roundOne[k - 1].player2.None?)
    ensures j == |kept| + |p.playIns| + k - 1
    ensures OpenSeatOfSeed(ms, j, s)
  {
    var c := |p.playIns|;
    var zero := PlayInRows(p.playIns, nextId);
    var one := RoundOneRows(p.roundOne, nextId + c);
    var seeded := kept + zero + one;
    assert PlanTable(kept, nextId, p).0.matches == seeded;
    ReportedPlayIns(kept, zero, one, ms);
    j := |kept| + c + k - 1;
    var slot := p.roundOne[k - 1];
    assert seeded[j] == NewPlayoffMatch(nextId + c + k - 1, slot.player1, slot.player2, 1, k, None, false);
    OpenSeatFromSlot(ms, j, seeded[j], s, p.target);
  }


  /** A reported copy of a fresh round-1 row numbered k, whose empty seat belongs to seed s,
      is the open seat of seed s. */
  lemma OpenSeatFromSlot(ms: seq<Match>, j: int, row: Match, s: int, target: int)
    requires 0 <= j < |ms| && OutcomesOnly(row, ms[j])
    requires row.InPlayoffRound(1) && row.matchNumber.Some? && row.matchNumber.value >= 1
    requires (row.matchNumber == Some(s) && row.player1.None?)
             || (row.matchNumber == Some(target + 1 - s) && row.player2.None?)
    requires 2 * |RoundMatches(ms, 1)| == target
    ensures OpenSeatOfSeed(ms, j, s)
  {
  }

  /** The seed-keyed fill seats the winner keyed by seed s in an empty seat of that seed. */
  lemma FillBySeedSeats(ms: seq<Match>, stw: map<int, PlayerId>, size: int, j: int, s: int, w: PlayerId)
    requires OpenSeatOfSeed(ms, j, s) && size == 2 * |RoundMatches(ms, 1)|
    requires s in stw && stw[s] == w
    ensures AnySeedFill(ms, stw, size)
    ensures SeatOfSeed(FillBySeed(ms, stw, size)[j], s, size, w)
  {
    assert SlotFillable(ms[j], stw, size);
    assert FillBySeed(ms, stw, size)[j] == FillSlotBySeed(ms[j], stw, size);
  }

  /** On a seeded bracket with play-ins, the winner w of play-in i is keyed by its target seed,
      and row j holds the open round-1 seat of that seed. */
  lemma SeededPlayInSeat(kept: seq<Match>, nextId: int, seeds: seq<PlayerId>, t: Table, i: int, w: PlayerId)
    returns (j: int)
    requires forall m :: m in kept ==> !m.playoff
    requires BracketPlan(seeds).WithPlayIns?
    requires ReportedFrom(PlanTable(kept, nextId, BracketPlan(seeds)).0.matches, t.matches)
    requires RoundIsComplete(RoundMatches(t.matches, 0))
    requires 0 <= i < |BracketPlan(seeds).playIns|
    requires |kept| + i < |t.matches| && DetermineWinner(t.matches[|kept| + i]) == Some(w)
    ensures PlayInSeatOpen(t, j, BracketPlan(seeds).playIns[i].targetSeed, w)
    ensures 2 * |RoundMatches(t.matches, 1)| == BracketPlan(seeds).target
  {
    var p := BracketPlan(seeds);
    assert PlayInShape(p) by {
      PlanCounts(seeds);
      PlayInTargets(seeds);
    }
    PlayInWinnerKeyed(kept, nextId, p, t.matches, i, w);
    j := PlayInSeatRow(kept, nextId, seeds, t.matches, i);
  }

  /** A complete play-in round whose winner w is keyed by seed s, with the open round-1 seat of
      that seed in row j: the seed-keyed fill applies and seats w there. */
  lemma PlayInFillSeats(t: Table, j: int, s: int, w: PlayerId, stw: map<int, PlayerId>, size: int)
    requires PlayInSeatOpen(t, j, s, w)
    requires stw == SeedToWinner(RoundMatches(t.matches, 0)) && size == 2 * |RoundMatches(t.matches, 1)|
    ensures PlayInFillApplies(t)
    ensures SeatOfSeed(FillBySeed(t.matches, stw, size)[j], s, size, w)
  {
    FillBySeedSeats(t.matches, stw, size, j, s, w);
    assert PlayInFillApplies(t) by {
      var rm := RoundMatches(t.matches, 0);
      RoundExistsIffMatches(t.matches, 1);
      assert rm != [] && CollectWinners(rm) != [];
    }
  }


  /** The corrected manual advance of a complete play-in round whose winner w is keyed by seed
      s, with the open round-1 seat of that seed in row j: round 1 becomes current and w sits in
      that seat. */
  lemma PlayInSeatAdvances(t: Table, j: int, s: int, w: PlayerId, stw: map<int, PlayerId>, size: int, target: int)
    requires PlayInSeatOpen(t, j, s, w)
    requires stw == SeedToWinner(RoundMatches(t.matches, 0)) && size == 2 * |RoundMatches(t.matches, 1)|
    requires size == target
    ensures var res := ManualAdvance(t, 0, false);
      && res.1 == 1 && res.2 == Advanced(1)
      && 0 <= j < |res.0.matches| && SeatOfSeed(res.0.matches[j], s, target, w)
  {
    PlayInFillSeats(t, j, s, w, stw, size);
    PlayInRoundAdvances(t, FillBySeed(t.matches, stw, size));
  }

  /** The corrected manual advance on a seeded bracket with play-ins: once the play-in round is
      complete, advancing it never crowns anyone; it moves to round 1, and the winner of every
      decided play-in sits in the round-1 seat of the seed that play-in was for. */
  lemma CorrectedAdvancesPlayInWinner(kept: seq<Match>, nextId: int, seeds: seq<PlayerId>, t: Table,
                                      i: int, w: PlayerId)
    requires forall m :: m in kept ==> !m.playoff
    requires BracketPlan(seeds).WithPlayIns?
    requires ReportedFrom(PlanTable(kept, nextId, BracketPlan(seeds)).0.matches, t.matches)
    requires RoundIsComplete(RoundMatches(t.matches, 0))
    requires 0 <= i < |BracketPlan(seeds).playIns|
    requires |kept| + i < |t.matches| && DetermineWinner(t.matches[|kept| + i]) == Some(w)
    ensures var res := ManualAdvance(t, 0, false);
      && res.1 == 1 && res.2 == Advanced(1)
      && exists j :: 0 <= j < |res.0.matches| &&
           SeatOfSeed(res.0.matches[j], BracketPlan(seeds).playIns[i].targetSeed, BracketPlan(seeds).target, w)
  {
    var j := SeededPlayInSeat(kept, nextId, seeds, t, i, w);
    PlayInSeatAdvances(t, j, BracketPlan(seeds).playIns[i].targetSeed, w, SeedToWinner(RoundMatches(t.matches, 0)),
                       2 * |RoundMatches(t.matches, 1)|, BracketPlan(seeds).target);
  }

  /** One more row of the in-order fill. */
  lemma FillOpenStep(rows: seq<Match>, r: int, ws: seq<PlayerId>, i: int)
    requires 0 <= i < |rows|
    ensures var front := FillOpen(rows[..i], r, ws);
      var last := FillOneOpen(rows[i], r, ws, front.1);
      FillOpen(rows[..i + 1], r, ws) == (front.0 + [last.0], last.1)
  {
    assert rows[..i + 1][..i] == rows[..i];
  }

  /** One row of the in-order fill: an empty player-1 slot of round r takes the next winner,
      then an empty player-2 slot the one after, while winners remain. */
  method FillRow(m: Match, r: int, winners: seq<PlayerId>, used: nat) returns (filled: Match, nowUsed: nat)
    requires used <= |winners|
    ensures (filled, nowUsed) == FillOneOpen(m, r, winners, used)
  {
    filled, nowUsed := m, used;
    if m.InPlayoffRound(r) {
      if filled.player1.None? && nowUsed < |winners| {
        filled := filled.(player1 := Some(winners[nowUsed]));
        nowUsed := nowUsed + 1;
      }
      if filled.player2.None? && nowUsed < |winners| {
        filled := filled.(player2 := Some(winners[nowUsed]));
        nowUsed := nowUsed + 1;
      }
    }
  }

  /** round_is_complete, scanning the rows until one with two players is unreported. */
  method RoundComplete(rm: seq<Match>) returns (complete: bool)
    ensures complete == RoundIsComplete(rm)
  {
    var i := 0;
    while i < |rm|
      invariant 0 <= i <= |rm|
      invariant forall k :: 0 <= k < i ==> rm[k].player2.None? || rm[k].reported
    {
      if rm[i].player2.Some? && !rm[i].reported {
        return false;
      }
      i := i + 1;
    }
    return true;
  }

  lemma {:induction false} CollectWinnersSnoc(rm: seq<Match>, m: Match)
    ensures CollectWinners(rm + [m]) == CollectWinners(rm) + (match DetermineWinner(m) case Some(w) => [w] case None => [])
  {
    if rm == [] {
      assert [m][1..] == [];
    } else {
      assert (rm + [m])[1..] == rm[1..] + [m];
      CollectWinnersSnoc(rm[1..], m);
    }
  }

  /** collect_winners, appending each row's winner in turn. */
  method Winners(rm: seq<Match>) returns (winners: seq<PlayerId>)
    ensures winners == CollectWinners(rm)
  {
    winners := [];
    var i := 0;
    while i < |rm|
      invariant 0 <= i <= |rm|
      invariant winners == CollectWinners(rm[..i])
    {
      var w := DetermineWinner(rm[i]);
      CollectWinnersSnoc(rm[..i], rm[i]);
      assert rm[..i + 1] == rm[..i] + [rm[i]];
      if w.Some? {
        winners := winners + [w.value];
      }
      i := i + 1;
    }
    assert rm[..i] == rm;
  }

  /** The `seed_to_winner` dictionary, built row by row. */
  method SeedWinners(rm: seq<Match>) returns (stw: map<int, PlayerId>)
    ensures stw == SeedToWinner(rm)
  {
    stw := map[];
    var i := 0;
    while i < |rm|
      invariant 0 <= i <= |rm|
      invariant stw == SeedToWinner(rm[..i])
    {
      assert rm[..i + 1][..i] == rm[..i];
      var w := DetermineWinner(rm[i]);
      if w.Some? && rm[i].matchNumber.Some? {
        stw := stw[rm[i].matchNumber.value := w.value];
      }
      i := i + 1;
    }
    assert rm[..i] == rm;
  }

  class League {
    /** The `matches` table, rows in id order. */
    var matches: seq<Match>
    /** The id the database assigns to the next inserted row. */
    var nextId: int
    /** The `current_playoff_round` setting; negative when the playoffs are not active. */
    var currentPlayoffRound: int

    function State(): Table
      reads this
    {
      Table(matches, nextId)
    }

    /** The ids of the rows increase along the table and stay below the next id. */
    predicate Valid()
      reads this
    {
      WellFormed(State())
    }

    constructor (ms: seq<Match>, firstFreeId: int, current: int)
      requires WellFormed(Table(ms, firstFreeId))
      ensures Valid()
      ensures matches == ms && nextId == firstFreeId && currentPlayoffRound == current
    {
      matches := ms;
      nextId := firstFreeId;
      currentPlayoffRound := current;
    }

    /** auto_resolve_byes: a 0-0 score for every reported playoff bye without one. */
    method ResolveByes()
      requires Valid()
      modifies this
      ensures Valid()
      ensures matches == AutoResolveByes(old(matches))
      ensures nextId == old(nextId) && currentPlayoffRound == old(currentPlayoffRound)
    {
      var i := 0;
      while i < |matches|
        invariant 0 <= i <= |matches| == |old(matches)|
        invariant forall k :: 0 <= k < i ==> matches[k] == ResolveBye(old(matches)[k])
        invariant forall k :: i <= k < |matches| ==> matches[k] == old(matches)[k]
        invariant nextId == old(nextId) && currentPlayoffRound == old(currentPlayoffRound)
      {
        if NeedsByeScore(matches[i]) {
          matches := matches[i := matches[i].(score1 := Some(0), score2 := Some(0))];
        }
        i := i + 1;
      }
      SameIdsWellFormed(old(State()), matches);
    }

    /** create_next_round: winners 2j and 2j+1 meet in row j+1 of round r (an odd last winner
        gets a reported bye), then the byes are resolved. */
    method InsertNextRound(winners: seq<PlayerId>, r: int)
      requires Valid()
      modifies this
      ensures Valid()
      ensures State() == CreateNextRound(old(State()), winners, r)
      ensures currentPlayoffRound == old(currentPlayoffRound)
    {
      ghost var rows := NextRoundMatches(winners, r, nextId);
      var j := 0;
      while 2 * j < |winners|
        invariant 0 <= j <= (|winners| + 1) / 2
        invariant matches == old(matches) + rows[..j]
        invariant nextId == old(nextId) + j
        invariant currentPlayoffRound == old(currentPlayoffRound)
      {
        var p2 := if 2 * j + 1 < |winners| then Some(winners[2 * j + 1]) else None;
        var bye := p2.None?;
        var row := NewPlayoffMatch(nextId, Some(winners[2 * j]), p2, r, j + 1, if bye then Some(0) else None, bye);
        assert row == rows[j];
        assert rows[..j + 1] == rows[..j] + [row];
        matches := matches + [row];
        nextId := nextId + 1;
        j := j + 1;
      }
      assert rows[..j] == rows;
      NextRoundSeatsWinners(winners, r, old(nextId));
      AppendWellFormed(old(State()), rows);
      ResolveByes();
    }

    /** The seed-keyed play-in fill: an empty slot of a numbered round-1 row takes the winner
        keyed by its seed; `updated` tells whether any slot was filled. */
    method FillSeededSlots(stw: map<int, PlayerId>, size: int) returns (updated: bool)
      requires Valid()
      modifies this
      ensures Valid()
      ensures matches == FillBySeed(old(matches), stw, size)
      ensures updated == AnySeedFill(old(matches), stw, size)
      ensures nextId == old(nextId) && currentPlayoffRound == old(currentPlayoffRound)
    {
      updated := false;
      var i := 0;
      while i < |matches|
        invariant 0 <= i <= |matches| == |old(matches)|
        invariant forall k :: 0 <= k < i ==> matches[k] == FillSlotBySeed(old(matches)[k], stw, size)
        invariant forall k :: i <= k < |matches| ==> matches[k] == old(matches)[k]
        invariant updated <==> exists k :: 0 <= k < i && SlotFillable(old(matches)[k], stw, size)
        invariant nextId == old(nextId) && currentPlayoffRound == old(currentPlayoffRound)
      {
        var m := matches[i];
        if m.InPlayoffRound(1) && m.matchNumber.Some? && m.matchNumber.value != 0 {
          var seed1 := m.matchNumber.value;
          var seed2 := size + 1 - seed1;
          if m.player1.None? && seed1 in stw {
            m := m.(player1 := Some(stw[seed1]));
            updated := true;
          }
          if m.player2.None? && seed2 in stw {
            m := m.(player2 := Some(stw[seed2]));
            updated := true;
          }
          matches := matches[i := m];
        }
        i := i + 1;
      }
      SameIdsWellFormed(old(State()), matches);
    }

    /** The in-order fill of round r's empty slots with the winners not yet placed; `used`
        counts the winners placed. */
    method FillOpenSlots(r: int, winners: seq<PlayerId>) returns (used: nat)
      requires Valid()
      modifies this
      ensures Valid()
      ensures (matches, used) == FillOpen(old(matches), r, winners)
      ensures nextId == old(nextId) && currentPlayoffRound == old(currentPlayoffRound)
    {
      ghost var rows := matches;
      used := 0;
      var i := 0;
      while i < |matches|
        invariant 0 <= i <= |matches| == |rows|
        invariant matches[..i] == FillOpen(rows[..i], r, winners).0
        invariant used == FillOpen(rows[..i], r, winners).1
        invariant forall k :: i <= k < |matches| ==> matches[k] == rows[k]
        invariant nextId == old(nextId) && currentPlayoffRound == old(currentPlayoffRound)
      {
        FillOpenStep(rows, r, winners, i);
        var m;
        m, used := FillRow(matches[i], r, winners, used);
        matches := matches[i := m];
        assert matches[..i + 1] == matches[..i] + [m];
        i := i + 1;
      }
      assert matches[..i] == matches && rows[..i] == rows;
      SameIdsWellFormed(old(State()), matches);
    }

    /** Round 0 of advance_playoff_winners: play-in winners take the round-1 slots of their
        seeds, or for a bracket without match numbers the empty round-1 slots in order. */
    method AdvancePlayInRound(rm: seq<Match>, winners: seq<PlayerId>) returns (progress: bool)
      requires Valid()
      modifies this
      ensures Valid()
      ensures (State(), progress) == AdvancePlayIns(old(State()), rm, winners)
      ensures currentPlayoffRound == old(currentPlayoffRound)
    {
      var stw := SeedWinners(rm);
      var roundOne := RoundMatches(matches, 1);
      if roundOne == [] {
        return false;
      }
      if stw == map[] {
        var used := FillOpenSlots(1, winners);
        return used > 0;
      }
      progress := FillSeededSlots(stw, 2 * |roundOne|);
    }

    /** One round of an automatic pass; `strict` selects the corrected readiness test. */
    method AdvanceRound(r: int, strict: bool) returns (progress: bool)
      requires Valid()
      modifies this
      ensures Valid()
      ensures (State(), progress) == Step(old(State()), r, strict)
      ensures currentPlayoffRound == old(currentPlayoffRound)
    {
      var rm := RoundMatches(matches, r);
      var complete := RoundComplete(rm);
      if rm == [] || !complete || (strict && !EarlierRoundsComplete(matches, r)) {
        return false;
      }
      var winners := Winners(rm);
      if winners == [] {
        return false;
      }
      if r == 0 {
        progress := AdvancePlayInRound(rm, winners);
        return;
      }
      if |winners| <= 1 || RoundExists(matches, r + 1) {
        return false;
      }
      InsertNextRound(winners, r + 1);
      progress := true;
    }

    /** advance_playoff_winners: a pass over the rounds listed at its start, repeated while a
        pass makes progress and the recursion depth is below the cap; `strict` selects the
        corrected readiness test. */
    method AdvancePlayoffWinners(depth: int, strict: bool)
      requires Valid()
      modifies this
      ensures Valid()
      ensures State() == Advance(old(State()), depth, strict)
      ensures currentPlayoffRound == old(currentPlayoffRound)
      decreases MaxRecursionDepth - depth
    {
      if depth >= MaxRecursionDepth {
        return;
      }
      ghost var start := State();
      var rounds := RoundNumbers(matches);
      var created := false;
      var i := 0;
      while i < |rounds|
        invariant 0 <= i <= |rounds|
        invariant Valid()
        invariant Pass(State(), rounds[i..], strict).0 == Pass(start, rounds, strict).0
        invariant (created || Pass(State(), rounds[i..], strict).1) == Pass(start, rounds, strict).1
        invariant currentPlayoffRound == old(currentPlayoffRound)
      {
        ghost var before := State();
        assert rounds[i..][1..] == rounds[i + 1..];
        assert Pass(before, rounds[i..], strict).0 == Pass(Step(before, rounds[i], strict).0, rounds[i + 1..], strict).0;
        var progress := AdvanceRound(rounds[i], strict);
        created := created || progress;
        i := i + 1;
      }
      if created {
        AdvancePlayoffWinners(depth + 1, strict);
      }
    }

    /** admin_advance_playoff_round: the outcome it reports, with the table and the current
        round updated as ManualAdvance says; `crownInPlayIns` false is the corrected order of
        checks, true the order as written. */
    method AdminAdvancePlayoffRound(crownInPlayIns: bool) returns (outcome: ManualOutcome)
      requires Valid()
      modifies this
      ensures Valid()
      ensures (State(), currentPlayoffRound, outcome) == ManualAdvance(old(State()), old(currentPlayoffRound), crownInPlayIns)
    {
      var current := currentPlayoffRound;
      if current < 0 {
        return NotActive;
      }
      var rm := RoundMatches(matches, current);
      if rm == [] {
        return NoMatches;
      }
      var complete := RoundComplete(rm);
      if !complete {
        return Incomplete(UnreportedCount(rm));
      }
      var winners := Winners(rm);
      if winners == [] {
        return NoWinners;
      }
      if |winners| == 1 && (crownInPlayIns || current != 0) {
        currentPlayoffRound := -1;
        return Champion(winners[0]);
      }
      if current == 0 {
        var stw := SeedWinners(rm);
        var roundOne := RoundMatches(matches, 1);
        if roundOne == [] {
          return RoundOneMissing;
        }
        FillBySeedChanges(matches, stw, 2 * |roundOne|);
        var updated := FillSeededSlots(stw, 2 * |roundOne|);
        if !updated {
          return NoSlotsFilled;
        }
        currentPlayoffRound := 1;
        return Advanced(1);
      }
      var next := current + 1;
      if !RoundExists(matches, next) {
        InsertNextRound(winners, next);
      } else {
        var used := FillOpenSlots(next, winners);
      }
      currentPlayoffRound := next;
      outcome := Advanced(next);
    }

    /** create_first_round_matches: pair `slot` plays seeds[slot] against seeds[n-1-slot]. */
    method CreateFirstRoundMatches(seeds: seq<PlayerId>, r: int)
      requires Valid()
      modifies this
      ensures Valid()
      ensures matches == old(matches) + PairRows(FirstRoundPairs(seeds), r, old(nextId))
      ensures nextId == old(nextId) + |seeds| / 2
      ensures currentPlayoffRound == old(currentPlayoffRound)
    {
      ghost var rows := PairRows(FirstRoundPairs(seeds), r, nextId);
      var slot := 0;
      while slot < |seeds| / 2
        invariant 0 <= slot <= |seeds| / 2
        invariant matches == old(matches) + rows[..slot]
        invariant nextId == old(nextId) + slot
        invariant Valid()
        invariant currentPlayoffRound == old(currentPlayoffRound)
      {
        var row := NewPlayoffMatch(nextId, Some(seeds[slot]), Some(seeds[|seeds| - 1 - slot]), r, slot + 1, None, false);
        assert row == rows[slot];
        assert rows[..slot + 1] == rows[..slot] + [row];
        AppendWellFormed(State(), [row]);
        matches := matches + [row];
        nextId := nextId + 1;
        slot := slot + 1;
      }
      assert rows[..slot] == rows;
    }

    /** The play-in rows of create_playoff_bracket, in the order of the metadata. */
    method InsertPlayIns(meta: seq<PlayIn>)
      requires Valid()
      modifies this
      ensures Valid()
      ensures matches == old(matches) + PlayInRows(meta, old(nextId))
      ensures nextId == old(nextId) + |meta|
      ensures currentPlayoffRound == old(currentPlayoffRound)
    {
      ghost var rows := PlayInRows(meta, nextId);
      var k := 0;
      while k < |meta|
        invariant 0 <= k <= |meta|
        invariant matches == old(matches) + rows[..k]
        invariant nextId == old(nextId) + k
        invariant Valid()
        invariant currentPlayoffRound == old(currentPlayoffRound)
      {
        var row := NewPlayoffMatch(nextId, Some(meta[k].player1), Some(meta[k].player2), 0, meta[k].targetSeed, None, false);
        assert row == rows[k];
        assert rows[..k + 1] == rows[..k] + [row];
        AppendWellFormed(State(), [row]);
        matches := matches + [row];
        nextId := nextId + 1;
        k := k + 1;
      }
      assert rows[..k] == rows;
    }

    /** The round-1 rows of create_playoff_bracket: slot k holds seeds k and target+1-k, each
        present only when that seed has a bye. */
    method InsertRoundOneSlots(seeds: seq<PlayerId>, target: int, byes: int)
      requires 0 <= byes <= |seeds| && target >= 0
      requires Valid()
      modifies this
      ensures Valid()
      ensures matches == old(matches) + RoundOneRows(RoundOneSlots(seeds, target, byes), old(nextId))
      ensures nextId == old(nextId) + target / 2
      ensures currentPlayoffRound == old(currentPlayoffRound)
    {
      ghost var rows := RoundOneRows(RoundOneSlots(seeds, target, byes), nextId);
      var matchIndex := 1;
      while matchIndex <= target / 2
        invariant 1 <= matchIndex <= target / 2 + 1
        invariant matches == old(matches) + rows[..matchIndex - 1]
        invariant nextId == old(nextId) + matchIndex - 1
        invariant Valid()
        invariant currentPlayoffRound == old(currentPlayoffRound)
      {
        var seed1 := matchIndex;
        var seed2 := target + 1 - matchIndex;
        var p1 := if seed1 <= byes then Some(seeds[seed1 - 1]) else None;
        var p2 := if seed2 <= byes then Some(seeds[seed2 - 1]) else None;
        var row := NewPlayoffMatch(nextId, p1, p2, 1, matchIndex, None, false);
        assert row == rows[matchIndex - 1];
        assert rows[..matchIndex] == rows[..matchIndex - 1] + [row];
        AppendWellFormed(State(), [row]);
        matches := matches + [row];
        nextId := nextId + 1;
        matchIndex := matchIndex + 1;
      }
      assert rows[..matchIndex - 1] == rows;
    }

    /** create_playoff_bracket: the old playoff rows are deleted, the field is seeded by the
        regular-season standings, and the rows of the first playoff rounds are inserted. */
    method CreatePlayoffBracket(players: seq<Player>)
      requires Valid()
      modifies this
      ensures Valid()
      ensures (State(), currentPlayoffRound) == SeedBracket(old(State()), BracketSeeds(players, old(matches)))
    {
      PlayoffRowsRemovedWellFormed(State());
      matches := PlayoffRowsRemoved(matches);
      var ranked := CalculateRankings(players, matches, false);
      InsertBracket(Seeds(ranked));
    }

    /** The seeding part of create_playoff_bracket: the rows of the plan for `seeds` appended
        and the current round set where play starts. */
    method InsertBracket(seeds: seq<PlayerId>)
      requires Valid()
      modifies this
      ensures Valid()
      ensures (State(), currentPlayoffRound) == PlanTable(old(matches), old(nextId), BracketPlan(seeds))
    {
      var n := |seeds|;
      if n < 2 {
        currentPlayoffRound := -1;
        return;
      }
      if IsPowerOfTwo(n) {
        CreateFirstRoundMatches(seeds, 1);
        currentPlayoffRound := 1;
        return;
      }
      var target := LargestPowerOfTwo(n);
      var byes := target - (n - target);
      var meta := PlayInMetadata(seeds, target, byes);
      ghost var plan := WithPlayIns(target, byes, meta, RoundOneSlots(seeds, target, byes));
      assert BracketPlan(seeds) == plan;
      InsertPlayIns(meta);
      InsertRoundOneSlots(seeds, target, byes);
      currentPlayoffRound := 0;
    }
  }
}
