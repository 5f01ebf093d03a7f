/** The rules of playoff advancement over the `matches` table, as pure functions of the table:
    which rounds exist and are complete, who won them, how a next round is built from the
    winners, how play-in winners take their round-1 slots, and what one automatic pass and the
    capped repetition of passes do. The class in module Bracket performs these steps in place. */
module Advancement {
  import opened Wrappers
  import opened MatchRecord
  import opened Outcome

  /** The database state the bracket engine touches: the match rows in id order and the id the
      next inserted row receives. */
  datatype Table = Table(matches: seq<Match>, nextId: int)

  /** The table as the database keeps it: row ids strictly increase along the rows, and the
      next id exceeds every id in use. */
  predicate WellFormed(t: Table) {
    IdsIncrease(t.matches) && forall i :: 0 <= i < |t.matches| ==> t.matches[i].id < t.nextId
  }

  predicate IdsIncrease(ms: seq<Match>) {
    forall i, j :: 0 <= i < j < |ms| ==> ms[i].id < ms[j].id
  }

  /** Two row lists with the same ids, position by position. */
  predicate SameIds(a: seq<Match>, b: seq<Match>) {
    |a| == |b| && forall i :: 0 <= i < |a| ==> a[i].id == b[i].id
  }

  lemma SameIdsWellFormed(t: Table, ms: seq<Match>)
    requires WellFormed(t) && SameIds(t.matches, ms)
    ensures WellFormed(t.(matches := ms))
  {
  }

  /** Rows inserted with the ids the database hands out next keep the table well formed. */
  lemma AppendWellFormed(t: Table, rows: seq<Match>)
    requires WellFormed(t)
    requires forall j :: 0 <= j < |rows| ==> rows[j].id == t.nextId + j
    ensures WellFormed(Table(t.matches + rows, t.nextId + |rows|))
  {
    var ms := t.matches + rows;
    forall i, j | 0 <= i < j < |ms| ensures ms[i].id < ms[j].id {
      if j >= |t.matches| && i < |t.matches| {
        assert ms[i].id < t.nextId <= ms[j].id;
      }
    }
  }

  /** MAX_RECURSION_DEPTH of advance_playoff_winners. */
  const MaxRecursionDepth: int := 10

  /** get_round_matches: the playoff rows of round r, in id order. */
  function RoundMatches(ms: seq<Match>, r: int): (rm: seq<Match>)
    ensures |rm| <= |ms|
    ensures forall m :: m in rm ==> m in ms && m.InPlayoffRound(r)
  {
    if ms == [] then []
    else (if ms[0].InPlayoffRound(r) then [ms[0]] else []) + RoundMatches(ms[1..], r)
  }

  /** next_round_exists: some playoff row belongs to round r. */
  predicate RoundExists(ms: seq<Match>, r: int) {
    exists i :: 0 <= i < |ms| && ms[i].InPlayoffRound(r)
  }

  lemma {:induction false} RoundExistsIffMatches(ms: seq<Match>, r: int)
    ensures RoundExists(ms, r) <==> RoundMatches(ms, r) != []
  {
    if ms != [] {
      RoundExistsIffMatches(ms[1..], r);
      if RoundExists(ms[1..], r) {
        var i :| 0 <= i < |ms[1..]| && ms[1..][i].InPlayoffRound(r);
        assert ms[i + 1].InPlayoffRound(r);
      }
      if RoundExists(ms, r) && !ms[0].InPlayoffRound(r) {
        var i :| 0 <= i < |ms| && ms[i].InPlayoffRound(r);
        assert ms[1..][i - 1].InPlayoffRound(r);
      }
    }
  }

  lemma {:induction false} RoundMatchesAppend(a: seq<Match>, b: seq<Match>, r: int)
    ensures RoundMatches(a + b, r) == RoundMatches(a, r) + RoundMatches(b, r)
  {
    if a != [] {
      assert (a + b)[1..] == a[1..] + b;
      RoundMatchesAppend(a[1..], b, r);
    } else {
      assert a + b == b;
    }
  }

  /** round_is_complete: every row of the round with two players is reported; a row without
      a second player counts as a completed bye. */
  predicate RoundIsComplete(rm: seq<Match>) {
    forall i :: 0 <= i < |rm| ==> rm[i].player2.None? || rm[i].reported
  }

  /** The number of two-player rows of a round still unreported. */
  function UnreportedCount(rm: seq<Match>): (c: nat)
    ensures c == 0 <==> RoundIsComplete(rm)
    ensures c <= |rm|
  {
    if rm == [] then 0
    else
      var rest := UnreportedCount(rm[1..]);
      assert RoundIsComplete(rm) <==> (rm[0].player2.None? || rm[0].reported) && RoundIsComplete(rm[1..]) by {
        if RoundIsComplete(rm[1..]) && (rm[0].player2.None? || rm[0].reported) {
          forall i | 0 <= i < |rm| ensures rm[i].player2.None? || rm[i].reported {
            if i > 0 { assert rm[i] == rm[1..][i - 1]; }
          }
        }
      }
      (if !rm[0].reported && rm[0].player2.Some? then 1 else 0) + rest
  }

  /** collect_winners: the winners of the rows that have one, in row order. */
  function CollectWinners(rm: seq<Match>): (ws: seq<PlayerId>)
    ensures |ws| <= |rm|
    ensures |ws| == |rm| <==> forall i :: 0 <= i < |rm| ==> DetermineWinner(rm[i]).Some?
  {
    if rm == [] then []
    else
      var rest := CollectWinners(rm[1..]);
      assert (forall i :: 0 <= i < |rm| ==> DetermineWinner(rm[i]).Some?)
         <==> DetermineWinner(rm[0]).Some? && forall i :: 0 <= i < |rm[1..]| ==> DetermineWinner(rm[1..][i]).Some? by {
        if DetermineWinner(rm[0]).Some? && forall i :: 0 <= i < |rm[1..]| ==> DetermineWinner(rm[1..][i]).Some? {
          forall i | 0 <= i < |rm| ensures DetermineWinner(rm[i]).Some? {
            if i > 0 { assert rm[i] == rm[1..][i - 1]; }
          }
        }
      }
      (match DetermineWinner(rm[0]) case Some(w) => [w] case None => []) + rest
  }

  /** The winner of every row is collected. */
  lemma {:induction false} WinnerCollected(rm: seq<Match>, j: int)
    requires 0 <= j < |rm| && DetermineWinner(rm[j]).Some?
    ensures DetermineWinner(rm[j]).value in CollectWinners(rm)
  {
    if j > 0 {
      assert rm[j] == rm[1..][j - 1];
      WinnerCollected(rm[1..], j - 1);
    }
  }

  /** Every collected winner won one of the rows. */
  lemma {:induction false} WinnersWonARow(rm: seq<Match>, w: PlayerId)
    requires w in CollectWinners(rm)
    ensures exists i :: 0 <= i < |rm| && DetermineWinner(rm[i]) == Some(w)
  {
    if DetermineWinner(rm[0]) != Some(w) {
      WinnersWonARow(rm[1..], w);
      var i :| 0 <= i < |rm[1..]| && DetermineWinner(rm[1..][i]) == Some(w);
      assert rm[i + 1] == rm[1..][i];
    }
  }

  predicate Increasing(s: seq<int>) {
    forall i, j :: 0 <= i < j < |s| ==> s[i] < s[j]
  }

  function InsertRound(x: int, s: seq<int>): (r: seq<int>)
    requires Increasing(s)
    ensures Increasing(r)
    ensures forall y :: y in r <==> y == x || y in s
  {
    if s == [] then [x]
    else if x == s[0] then s
    else if x < s[0] then [x] + s
    else
      var rest := InsertRound(x, s[1..]);
      assert forall k :: 0 <= k < |rest| ==> s[0] < rest[k] by {
        forall k | 0 <= k < |rest| ensures s[0] < rest[k] {
          assert rest[k] in rest;
          if rest[k] != x { var j :| 0 <= j < |s[1..]| && s[1..][j] == rest[k]; assert s[j + 1] == rest[k]; }
        }
      }
      [s[0]] + rest
  }

  /** list_round_numbers: the distinct playoff rounds, ascending. */
  function RoundNumbers(ms: seq<Match>): (r: seq<int>)
    ensures Increasing(r)
  {
    if ms == [] then []
    else
      var rest := RoundNumbers(ms[1..]);
      if ms[0].playoff && ms[0].playoffRound.Some? then InsertRound(ms[0].playoffRound.value, rest) else rest
  }

  /** A round is listed exactly when some playoff row belongs to it. */
  lemma {:induction false} RoundNumbersListRounds(ms: seq<Match>, x: int)
    ensures x in RoundNumbers(ms) <==> RoundExists(ms, x)
  {
    if ms != [] {
      RoundNumbersListRounds(ms[1..], x);
      RoundExistsIffMatches(ms, x);
      RoundExistsIffMatches(ms[1..], x);
    } else {
      assert !RoundExists(ms, x);
    }
  }

  /** Row j of a round built from `winners`: winners 2j and 2j+1, or a bye for an odd last
      winner, which is stored reported with a 0-0 score. */
  function NextRoundMatch(winners: seq<PlayerId>, r: int, firstId: int, j: nat): Match
    requires 2 * j < |winners|
  {
    var bye := 2 * j + 1 >= |winners|;
    NewPlayoffMatch(firstId + j, Some(winners[2 * j]), if bye then None else Some(winners[2 * j + 1]),
                    r, j + 1, if bye then Some(0) else None, bye)
  }

  /** The rows create_next_round inserts for round r, ids from firstId on. */
  function NextRoundMatches(winners: seq<PlayerId>, r: int, firstId: int): (rows: seq<Match>)
    ensures |rows| == (|winners| + 1) / 2
  {
    seq((|winners| + 1) / 2, j requires 0 <= j < (|winners| + 1) / 2 => NextRoundMatch(winners, r, firstId, j))
  }

  /** The players present in a row: player 1 then player 2. */
  function Players(m: Match): seq<PlayerId> {
    (if m.player1.Some? then [m.player1.value] else []) + (if m.player2.Some? then [m.player2.value] else [])
  }

  /** The players seated in a list of rows, row by row. */
  function Seats(ms: seq<Match>): seq<PlayerId> {
    if ms == [] then [] else Seats(ms[..|ms| - 1]) + Players(ms[|ms| - 1])
  }

  lemma {:induction false} SeatsOfNextRoundPrefix(winners: seq<PlayerId>, r: int, firstId: int, k: nat)
    requires k <= (|winners| + 1) / 2
    ensures Seats(NextRoundMatches(winners, r, firstId)[..k]) == winners[..if 2 * k < |winners| then 2 * k else |winners|]
  {
    var rows := NextRoundMatches(winners, r, firstId);
    if k > 0 {
      SeatsOfNextRoundPrefix(winners, r, firstId, k - 1);
      assert rows[..k][..k - 1] == rows[..k - 1];
      var j := k - 1;
      var hi := if 2 * k < |winners| then 2 * k else |winners|;
      if 2 * j + 1 < |winners| {
        assert winners[..hi] == winners[..2 * j] + [winners[2 * j], winners[2 * j + 1]];
      } else {
        assert winners[..hi] == winners[..2 * j] + [winners[2 * j]];
      }
    }
  }

  /** create_next_round seats every winner exactly once, consecutive winners together, in
      rows numbered 1, 2, ... of round r; only an odd last winner gets a bye, and that bye is
      stored reported 0-0 and is won by its player. */
  lemma NextRoundSeatsWinners(winners: seq<PlayerId>, r: int, firstId: int)
    ensures var rows := NextRoundMatches(winners, r, firstId);
      && Seats(rows) == winners
      && (forall j :: 0 <= j < |rows| ==>
            rows[j].InPlayoffRound(r) && rows[j].matchNumber == Some(j + 1) && rows[j].id == firstId + j)
      && (forall j :: 0 <= j < |rows| ==> (rows[j].player2.None? <==> j == |rows| - 1 && |winners| % 2 == 1))
      && (forall j :: 0 <= j < |rows| && rows[j].player2.None? ==>
            rows[j].reported && rows[j].score1 == Some(0) && rows[j].score2 == Some(0)
            && DetermineWinner(rows[j]) == Some(winners[2 * j]))
  {
    var rows := NextRoundMatches(winners, r, firstId);
    SeatsOfNextRoundPrefix(winners, r, firstId, |rows|);
    assert rows[..|rows|] == rows;
    assert winners[..|winners|] == winners;
    forall j | 0 <= j < |rows|
      ensures rows[j].InPlayoffRound(r) && rows[j].matchNumber == Some(j + 1) && rows[j].id == firstId + j
      ensures rows[j].player2.None? <==> j == |rows| - 1 && |winners| % 2 == 1
      ensures rows[j].player2.None? ==>
        rows[j].reported && rows[j].score1 == Some(0) && rows[j].score2 == Some(0)
        && DetermineWinner(rows[j]) == Some(winners[2 * j])
    {
      NextRoundRow(winners, r, firstId, j, rows[j]);
    }
  }

  /** Row j of a new round: numbered j+1 in round r, a bye exactly for an odd last winner, and a
      bye row is reported 0-0 and won by its only player. */
  lemma NextRoundRow(winners: seq<PlayerId>, r: int, firstId: int, j: nat, m: Match)
    requires 2 * j < |winners| && m == NextRoundMatch(winners, r, firstId, j)
    ensures m.InPlayoffRound(r) && m.matchNumber == Some(j + 1) && m.id == firstId + j
    ensures m.player2.None? <==> j == (|winners| + 1) / 2 - 1 && |winners| % 2 == 1
    ensures m.player2.None? ==>
      m.reported && m.score1 == Some(0) && m.score2 == Some(0) && DetermineWinner(m) == Some(winners[2 * j])
  {
    if m.player2.None? {
      DetermineWinnerCases(m);
    }
  }

  /** The rows auto_resolve_byes completes: a reported playoff bye still missing a score. */
  predicate NeedsByeScore(m: Match) {
    m.playoff && m.player2.None? && m.reported && (m.score1.None? || m.score2.None?)
  }

  function ResolveBye(m: Match): Match {
    if NeedsByeScore(m) then m.(score1 := Some(0), score2 := Some(0)) else m
  }

  /** auto_resolve_byes: every reported playoff bye gets a 0-0 score. Nothing else changes:
      not the players, the round, the report flag, nor who advances. */
  function AutoResolveByes(ms: seq<Match>): (r: seq<Match>)
    ensures |r| == |ms|
    ensures forall i :: 0 <= i < |ms| ==> !NeedsByeScore(r[i])
    ensures forall i :: 0 <= i < |ms| ==> r[i] == ms[i].(score1 := r[i].score1, score2 := r[i].score2)
    ensures forall i :: 0 <= i < |ms| ==> DetermineWinner(r[i]) == DetermineWinner(ms[i])
  {
    seq(|ms|, i requires 0 <= i < |ms| => ResolveBye(ms[i]))
  }

  /** Exactly the reported byes without a score get 0-0; every other row is left as it was. */
  lemma AutoResolveByesScores(ms: seq<Match>)
    ensures var r := AutoResolveByes(ms);
      forall i :: 0 <= i < |ms| && NeedsByeScore(ms[i]) ==> r[i].score1 == Some(0) && r[i].score2 == Some(0)
    ensures var r := AutoResolveByes(ms);
      forall i :: 0 <= i < |ms| && !NeedsByeScore(ms[i]) ==> r[i] == ms[i]
  {
  }

  /** The table after create_next_round: the new rows appended, byes resolved, ids advanced. */
  function CreateNextRound(t: Table, winners: seq<PlayerId>, r: int): Table {
    Table(AutoResolveByes(t.matches + NextRoundMatches(winners, r, t.nextId)),
          t.nextId + (|winners| + 1) / 2)
  }

  /** The play-in winners keyed by the seed they advance to (`match_number`); a later row for
      the same seed overrides an earlier one. */
  function SeedToWinner(rm: seq<Match>): (stw: map<int, PlayerId>)
    ensures forall k :: k in stw ==>
      exists i :: 0 <= i < |rm| && rm[i].matchNumber == Some(k) && DetermineWinner(rm[i]) == Some(stw[k])
  {
    if rm == [] then map[]
    else
      var front := rm[..|rm| - 1];
      var prev := SeedToWinner(front);
      var m := rm[|rm| - 1];
      var w := DetermineWinner(m);
      assert forall i :: 0 <= i < |front| ==> front[i] == rm[i];
      if w.Some? && m.matchNumber.Some? then prev[m.matchNumber.value := w.value] else prev
  }

  /** A row whose match number no other row shares keys its winner under that number. */
  lemma {:induction false} SeedToWinnerDistinct(rm: seq<Match>, j: int)
    requires 0 <= j < |rm| && rm[j].matchNumber.Some? && DetermineWinner(rm[j]).Some?
    requires forall k :: 0 <= k < |rm| && k != j ==> rm[k].matchNumber != rm[j].matchNumber
    ensures rm[j].matchNumber.value in SeedToWinner(rm)
    ensures SeedToWinner(rm)[rm[j].matchNumber.value] == DetermineWinner(rm[j]).value
  {
    var front := rm[..|rm| - 1];
    if j < |rm| - 1 {
      assert forall k :: 0 <= k < |front| ==> front[k] == rm[k];
      SeedToWinnerDistinct(front, j);
    }
  }

  /** No seed is keyed exactly when no row has both a winner and a match number. */
  lemma {:induction false} SeedToWinnerEmpty(rm: seq<Match>)
    ensures SeedToWinner(rm) == map[] <==>
      forall i :: 0 <= i < |rm| ==> DetermineWinner(rm[i]).None? || rm[i].matchNumber.None?
  {
    if rm != [] {
      var front := rm[..|rm| - 1];
      SeedToWinnerEmpty(front);
      assert forall i :: 0 <= i < |front| ==> front[i] == rm[i];
      var m := rm[|rm| - 1];
      if DetermineWinner(m).Some? && m.matchNumber.Some? {
        assert m.matchNumber.value in SeedToWinner(rm);
      }
    }
  }

  /** A round-1 row with match number k holds seeds k and size+1-k; an empty slot takes the
      play-in winner keyed by its seed. */
  function FillSlotBySeed(m: Match, stw: map<int, PlayerId>, size: int): Match {
    if !m.InPlayoffRound(1) || m.matchNumber.None? || m.matchNumber.value == 0 then m
    else
      var k := m.matchNumber.value;
      m.(player1 := if m.player1.None? && k in stw then Some(stw[k]) else m.player1,
         player2 := if m.player2.None? && size + 1 - k in stw then Some(stw[size + 1 - k]) else m.player2)
  }

  /** `updated` of the seed-keyed fill: some slot was empty and its seed had a winner. */
  predicate SlotFillable(m: Match, stw: map<int, PlayerId>, size: int) {
    m.InPlayoffRound(1) && m.matchNumber.Some? && m.matchNumber.value != 0
    && ((m.player1.None? && m.matchNumber.value in stw)
        || (m.player2.None? && size + 1 - m.matchNumber.value in stw))
  }

  predicate AnySeedFill(ms: seq<Match>, stw: map<int, PlayerId>, size: int) {
    exists i :: 0 <= i < |ms| && SlotFillable(ms[i], stw, size)
  }

  /** The row differs at most in its player slots, and only a slot that was empty changed. */
  predicate OnlyEmptySlotsFilled(before: Match, after: Match) {
    && after == before.(player1 := after.player1, player2 := after.player2)
    && (after.player1 != before.player1 ==> before.player1.None? && after.player1.Some?)
    && (after.player2 != before.player2 ==> before.player2.None? && after.player2.Some?)
  }

  /** The play-in fill keyed by seed, over the whole table (only round-1 rows can change). */
  function FillBySeed(ms: seq<Match>, stw: map<int, PlayerId>, size: int): (r: seq<Match>)
    ensures |r| == |ms|
    ensures forall i :: 0 <= i < |ms| ==> OnlyEmptySlotsFilled(ms[i], r[i])
  {
    seq(|ms|, i requires 0 <= i < |ms| => FillSlotBySeed(ms[i], stw, size))
  }

  /** The fill changes the table exactly when some row has a slot it can fill. */
  lemma FillBySeedChanges(ms: seq<Match>, stw: map<int, PlayerId>, size: int)
    ensures FillBySeed(ms, stw, size) != ms <==> AnySeedFill(ms, stw, size)
  {
    var r := FillBySeed(ms, stw, size);
    if r != ms {
      var i :| 0 <= i < |ms| && r[i] != ms[i];
      assert SlotFillable(ms[i], stw, size);
    }
    if AnySeedFill(ms, stw, size) {
      var i :| 0 <= i < |ms| && SlotFillable(ms[i], stw, size);
      assert r[i] != ms[i];
    }
  }

  /** A slot filled by seed holds the winner of the play-in for that very seed. */
  lemma FillBySeedUsesSeed(ms: seq<Match>, stw: map<int, PlayerId>, size: int, i: int)
    requires 0 <= i < |ms|
    ensures var after := FillBySeed(ms, stw, size)[i];
      && (after.player1 != ms[i].player1 ==>
            ms[i].InPlayoffRound(1) && ms[i].matchNumber.Some?
            && ms[i].matchNumber.value in stw && after.player1 == Some(stw[ms[i].matchNumber.value]))
      && (after.player2 != ms[i].player2 ==>
            ms[i].InPlayoffRound(1) && ms[i].matchNumber.Some?
            && size + 1 - ms[i].matchNumber.value in stw
            && after.player2 == Some(stw[size + 1 - ms[i].matchNumber.value]))
  {
  }

  /** Filling a second time with the same winners changes nothing. */
  lemma FillBySeedIdempotent(ms: seq<Match>, stw: map<int, PlayerId>, size: int)
    ensures FillBySeed(FillBySeed(ms, stw, size), stw, size) == FillBySeed(ms, stw, size)
  {
    var once := FillBySeed(ms, stw, size);
    assert !AnySeedFill(once, stw, size);
  }

  /** One row of the in-order fill: an empty player-1 slot of round r takes the next unused
      winner, then an empty player-2 slot the one after. */
  function FillOneOpen(m: Match, r: int, ws: seq<PlayerId>, used: nat): (res: (Match, nat))
    requires used <= |ws|
    ensures used <= res.1 <= |ws|
    ensures OnlyEmptySlotsFilled(m, res.0)
    ensures NewlyFilled(m, res.0) == ws[used..res.1]
  {
    if !m.InPlayoffRound(r) then (m, used)
    else
      var m1 := if m.player1.None? && used < |ws| then m.(player1 := Some(ws[used])) else m;
      var u1 := if m.player1.None? && used < |ws| then used + 1 else used;
      if m1.player2.None? && u1 < |ws| then (m1.(player2 := Some(ws[u1])), u1 + 1) else (m1, u1)
  }

  /** The players a fill placed into a row's empty slots, player 1 first. */
  function NewlyFilled(before: Match, after: Match): seq<PlayerId> {
    (if before.player1.None? && after.player1.Some? then [after.player1.value] else [])
    + (if before.player2.None? && after.player2.Some? then [after.player2.value] else [])
  }

  /** The in-order fill of the empty slots of round r (the legacy play-in fallback and the
      manual fill of an existing next round): the new rows and how many winners were used. */
  function FillOpen(ms: seq<Match>, r: int, ws: seq<PlayerId>): (res: (seq<Match>, nat))
    ensures |res.0| == |ms| && res.1 <= |ws|
    ensures forall i :: 0 <= i < |ms| ==> OnlyEmptySlotsFilled(ms[i], res.0[i])
  {
    if ms == [] then ([], 0)
    else
      var front := FillOpen(ms[..|ms| - 1], r, ws);
      var last := FillOneOpen(ms[|ms| - 1], r, ws, front.1);
      (front.0 + [last.0], last.1)
  }

  /** Everything the fill placed, row by row. */
  function AllNewlyFilled(before: seq<Match>, after: seq<Match>): seq<PlayerId>
    requires |before| == |after|
  {
    if before == [] then []
    else AllNewlyFilled(before[..|before| - 1], after[..|after| - 1]) + NewlyFilled(before[|before| - 1], after[|after| - 1])
  }

  /** The in-order fill places exactly the first `used` winners, in order. */
  lemma {:induction false} FillOpenPlacesWinnersInOrder(ms: seq<Match>, r: int, ws: seq<PlayerId>)
    ensures var res := FillOpen(ms, r, ws); AllNewlyFilled(ms, res.0) == ws[..res.1]
  {
    if ms != [] {
      var front := FillOpen(ms[..|ms| - 1], r, ws);
      var last := FillOneOpen(ms[|ms| - 1], r, ws, front.1);
      var res := FillOpen(ms, r, ws);
      FillOpenPlacesWinnersInOrder(ms[..|ms| - 1], r, ws);
      assert res.0[..|res.0| - 1] == front.0;
      assert ws[..last.1] == ws[..front.1] + ws[front.1..last.1];
    }
  }

  /** A fill that used no winner changed nothing. */
  lemma {:induction false} FillOpenUnusedUnchanged(ms: seq<Match>, r: int, ws: seq<PlayerId>)
    requires FillOpen(ms, r, ws).1 == 0
    ensures FillOpen(ms, r, ws).0 == ms
  {
    if ms != [] {
      var front := FillOpen(ms[..|ms| - 1], r, ws);
      FillOpenUnusedUnchanged(ms[..|ms| - 1], r, ws);
      assert ms == ms[..|ms| - 1] + [ms[|ms| - 1]];
    }
  }

  /** Round 0 of advance_playoff_winners: play-in winners go to the round-1 slots of their
      seeds, or, for a bracket without match numbers, to the empty round-1 slots in order. */
  function AdvancePlayIns(t: Table, rm: seq<Match>, winners: seq<PlayerId>): (res: (Table, bool))
  {
    var stw := SeedToWinner(rm);
    var roundOne := RoundMatches(t.matches, 1);
    if roundOne == [] then (t, false)
    else if stw == map[] then
      var filled := FillOpen(t.matches, 1, winners);
      (t.(matches := filled.0), filled.1 > 0)
    else
      var size := 2 * |roundOne|;
      (t.(matches := FillBySeed(t.matches, stw, size)), AnySeedFill(t.matches, stw, size))
  }

  /** The rows of earlier rounds all have a result (or are byes). */
  predicate EarlierRoundsComplete(ms: seq<Match>, r: int) {
    forall i :: 0 <= i < |ms| && ms[i].playoff && ms[i].playoffRound.Some? && ms[i].playoffRound.value < r
      ==> ms[i].player2.None? || ms[i].reported
  }

  /** One round of an automatic pass: the new table and whether the pass made progress.
      `strict` is the corrected readiness test that also waits for every earlier round;
      without it this is the code as written. */
  function Step(t: Table, r: int, strict: bool): (res: (Table, bool))
  {
    var rm := RoundMatches(t.matches, r);
    if rm == [] || !RoundIsComplete(rm) || (strict && !EarlierRoundsComplete(t.matches, r)) then (t, false)
    else
      var winners := CollectWinners(rm);
      if winners == [] then (t, false)
      else if r == 0 then AdvancePlayIns(t, rm, winners)
      else if |winners| <= 1 || RoundExists(t.matches, r + 1) then (t, false)
      else (CreateNextRound(t, winners, r + 1), true)
  }

  /** One pass of advance_playoff_winners over the rounds listed at its start. */
  function Pass(t: Table, rounds: seq<int>, strict: bool): (res: (Table, bool))
    decreases |rounds|
  {
    if rounds == [] then (t, false)
    else
      var first := Step(t, rounds[0], strict);
      var rest := Pass(first.0, rounds[1..], strict);
      (rest.0, first.1 || rest.1)
  }

  function PassOnce(t: Table, strict: bool): (Table, bool) {
    Pass(t, RoundNumbers(t.matches), strict)
  }

  /** advance_playoff_winners: passes repeat while one makes progress, at most until the
      recursion depth reaches MaxRecursionDepth. */
  function Advance(t: Table, depth: int, strict: bool): Table
    decreases MaxRecursionDepth - depth
  {
    if depth >= MaxRecursionDepth then t
    else
      var pass := PassOnce(t, strict);
      if pass.1 then Advance(pass.0, depth + 1, strict) else pass.0
  }

  /** Creating a round inserts rows with fresh ids and leaves every id in place. */
  lemma CreateNextRoundWellFormed(t: Table, winners: seq<PlayerId>, r: int)
    requires WellFormed(t)
    ensures WellFormed(CreateNextRound(t, winners, r))
  {
    var rows := NextRoundMatches(winners, r, t.nextId);
    NextRoundSeatsWinners(winners, r, t.nextId);
    AppendWellFormed(t, rows);
    var joined := Table(t.matches + rows, t.nextId + |rows|);
    SameIdsWellFormed(joined, AutoResolveByes(joined.matches));
  }

  lemma FillOpenWellFormed(t: Table, r: int, ws: seq<PlayerId>)
    requires WellFormed(t)
    ensures WellFormed(t.(matches := FillOpen(t.matches, r, ws).0))
  {
    SameIdsWellFormed(t, FillOpen(t.matches, r, ws).0);
  }

  lemma FillBySeedWellFormed(t: Table, stw: map<int, PlayerId>, size: int)
    requires WellFormed(t)
    ensures WellFormed(t.(matches := FillBySeed(t.matches, stw, size)))
  {
    SameIdsWellFormed(t, FillBySeed(t.matches, stw, size));
  }

  /** One step of a pass keeps the table well formed. */
  lemma StepWellFormed(t: Table, r: int, strict: bool)
    requires WellFormed(t)
    ensures WellFormed(Step(t, r, strict).0)
  {
    var rm := RoundMatches(t.matches, r);
    var ws := CollectWinners(rm);
    if r == 0 {
      FillOpenWellFormed(t, 1, ws);
      FillBySeedWellFormed(t, SeedToWinner(rm), 2 * |RoundMatches(t.matches, 1)|);
    } else {
      CreateNextRoundWellFormed(t, ws, r + 1);
    }
  }

  lemma {:induction false} PassWellFormed(t: Table, rounds: seq<int>, strict: bool)
    requires WellFormed(t)
    ensures WellFormed(Pass(t, rounds, strict).0)
    decreases |rounds|
  {
    if rounds != [] {
      StepWellFormed(t, rounds[0], strict);
      PassWellFormed(Step(t, rounds[0], strict).0, rounds[1..], strict);
    }
  }

  /** Automatic advancement keeps the table well formed. */
  lemma {:induction false} AdvanceWellFormed(t: Table, depth: int, strict: bool)
    requires WellFormed(t)
    ensures WellFormed(Advance(t, depth, strict))
    decreases MaxRecursionDepth - depth
  {
    if depth < MaxRecursionDepth {
      var pass := PassOnce(t, strict);
      PassWellFormed(t, RoundNumbers(t.matches), strict);
      AdvanceWellFormed(pass.0, depth + 1, strict);
      AdvanceUnfolds(t, depth, strict, pass.0, pass.1);
    }
  }

  /** One level of Advance: the pass's table, passed on while the pass makes progress. */
  lemma AdvanceUnfolds(t: Table, depth: int, strict: bool, next: Table, progressed: bool)
    requires depth < MaxRecursionDepth && PassOnce(t, strict) == (next, progressed)
    ensures Advance(t, depth, strict) == if progressed then Advance(next, depth + 1, strict) else next
  {
  }

  /** A step that reports no progress left the table as it was. */
  lemma StepWithoutProgressUnchanged(t: Table, r: int, strict: bool)
    ensures !Step(t, r, strict).1 ==> Step(t, r, strict).0 == t
  {
    var rm := RoundMatches(t.matches, r);
    if rm != [] && RoundIsComplete(rm) && !(strict && !EarlierRoundsComplete(t.matches, r))
       && CollectWinners(rm) != [] && r == 0 {
      AdvancePlayInsWithoutProgressUnchanged(t, rm, CollectWinners(rm));
    }
  }

  /** Placing the play-in winners without filling a seat leaves the table as it was. */
  lemma AdvancePlayInsWithoutProgressUnchanged(t: Table, rm: seq<Match>, winners: seq<PlayerId>)
    ensures !AdvancePlayIns(t, rm, winners).1 ==> AdvancePlayIns(t, rm, winners).0 == t
  {
    var stw := SeedToWinner(rm);
    var roundOne := RoundMatches(t.matches, 1);
    if roundOne != [] {
      if stw == map[] {
        if FillOpen(t.matches, 1, winners).1 == 0 {
          FillOpenUnusedUnchanged(t.matches, 1, winners);
        }
      } else {
        FillBySeedChanges(t.matches, stw, 2 * |roundOne|);
      }
    }
  }

  lemma {:induction false} PassWithoutProgressUnchanged(t: Table, rounds: seq<int>, strict: bool)
    ensures !Pass(t, rounds, strict).1 ==> Pass(t, rounds, strict).0 == t
    decreases |rounds|
  {
    if rounds != [] {
      StepWithoutProgressUnchanged(t, rounds[0], strict);
      PassWithoutProgressUnchanged(Step(t, rounds[0], strict).0, rounds[1..], strict);
    }
  }

  /** A table on which a pass makes no progress. */
  predicate Settled(t: Table, strict: bool) {
    !PassOnce(t, strict).1
  }

  /** Advancing a settled table changes nothing: a second call with no new reports is a no-op. */
  lemma AdvanceSettledUnchanged(t: Table, depth: int, strict: bool)
    requires Settled(t, strict)
    ensures Advance(t, depth, strict) == t
  {
    PassWithoutProgressUnchanged(t, RoundNumbers(t.matches), strict);
  }

  /** `k` passes in a row. */
  function Passes(t: Table, k: nat, strict: bool): Table
    decreases k
  {
    if k == 0 then t else Passes(PassOnce(t, strict).0, k - 1, strict)
  }

  /** One productive pass: Advance recurses on its result and the pass count drops by one. */
  lemma AdvanceAfterProgress(t: Table, depth: int, strict: bool, next: Table, a: Table, b: Table)
    requires 0 <= depth < MaxRecursionDepth && PassOnce(t, strict) == (next, true)
    requires a == Advance(next, depth + 1, strict) && b == Passes(next, MaxRecursionDepth - (depth + 1), strict)
    ensures Advance(t, depth, strict) == a
    ensures Passes(t, MaxRecursionDepth - depth, strict) == b
  {
  }

  /** A pass without progress ends Advance on a settled table. */
  lemma AdvanceWithoutProgress(t: Table, depth: int, strict: bool)
    requires 0 <= depth < MaxRecursionDepth && !PassOnce(t, strict).1
    ensures Advance(t, depth, strict) == t && Settled(t, strict)
  {
    PassWithoutProgressUnchanged(t, RoundNumbers(t.matches), strict);
  }

  /** Advance either stops on a settled table or has run every pass the depth cap allows. */
  lemma {:induction false} AdvanceSettlesOrHitsCap(t: Table, depth: int, strict: bool)
    requires 0 <= depth <= MaxRecursionDepth
    ensures Settled(Advance(t, depth, strict), strict)
         || Advance(t, depth, strict) == Passes(t, MaxRecursionDepth - depth, strict)
    decreases MaxRecursionDepth - depth
  {
    if depth < MaxRecursionDepth {
      var pass := PassOnce(t, strict);
      if pass.1 {
        AdvanceSettlesOrHitsCap(pass.0, depth + 1, strict);
        AdvanceAfterProgress(t, depth, strict, pass.0, Advance(pass.0, depth + 1, strict), Passes(pass.0, MaxRecursionDepth - (depth + 1), strict));
      } else {
        AdvanceWithoutProgress(t, depth, strict);
      }
    }
  }

  /** Two tables whose rows sit in the same playoff rounds, row by row. */
  predicate SameRounds(a: seq<Match>, b: seq<Match>) {
    |a| == |b| && forall i :: 0 <= i < |a| ==> a[i].playoff == b[i].playoff && a[i].playoffRound == b[i].playoffRound
  }

  lemma {:induction false} SameRoundsSameCounts(a: seq<Match>, b: seq<Match>, q: int)
    requires SameRounds(a, b)
    ensures |RoundMatches(a, q)| == |RoundMatches(b, q)|
  {
    if a != [] {
      assert SameRounds(a[1..], b[1..]) by {
        forall i | 0 <= i < |a[1..]| ensures a[1..][i].playoffRound == b[1..][i].playoffRound && a[1..][i].playoff == b[1..][i].playoff {
          assert a[1..][i] == a[i + 1] && b[1..][i] == b[i + 1];
        }
      }
      SameRoundsSameCounts(a[1..], b[1..], q);
    }
  }

  /** Every round that already had rows has the same number of rows afterwards. */
  ghost predicate KeepsRounds(before: seq<Match>, after: seq<Match>) {
    forall q :: RoundExists(before, q) ==> RoundExists(after, q) && |RoundMatches(after, q)| == |RoundMatches(before, q)|
  }

  lemma SameRoundsKeepRounds(a: seq<Match>, b: seq<Match>)
    requires SameRounds(a, b)
    ensures KeepsRounds(a, b)
  {
    forall q | RoundExists(a, q) ensures RoundExists(b, q) && |RoundMatches(b, q)| == |RoundMatches(a, q)| {
      SameRoundsSameCounts(a, b, q);
      RoundExistsIffMatches(a, q);
      RoundExistsIffMatches(b, q);
    }
  }

  lemma {:induction false} NextRoundMatchesInRound(winners: seq<PlayerId>, r: int, firstId: int, q: int)
    requires q != r
    ensures RoundMatches(NextRoundMatches(winners, r, firstId), q) == []
  {
    var rows := NextRoundMatches(winners, r, firstId);
    RoundExistsIffMatches(rows, q);
    assert !RoundExists(rows, q);
  }

  /** Creating round r+1 when it does not exist leaves every existing round as it was. */
  lemma CreateNextRoundKeepsRounds(t: Table, winners: seq<PlayerId>, r: int)
    requires !RoundExists(t.matches, r)
    ensures KeepsRounds(t.matches, CreateNextRound(t, winners, r).matches)
  {
    var rows := NextRoundMatches(winners, r, t.nextId);
    var joined := t.matches + rows;
    var after := CreateNextRound(t, winners, r).matches;
    assert SameRounds(joined, after);
    SameRoundsKeepRounds(joined, after);
    forall q | RoundExists(t.matches, q) ensures RoundExists(joined, q) && |RoundMatches(joined, q)| == |RoundMatches(t.matches, q)| {
      assert q != r;
      RoundMatchesAppend(t.matches, rows, q);
      NextRoundMatchesInRound(winners, r, t.nextId, q);
      var i :| 0 <= i < |t.matches| && t.matches[i].InPlayoffRound(q);
      assert joined[i] == t.matches[i];
    }
  }

  lemma KeepsRoundsTransitive(a: seq<Match>, b: seq<Match>, c: seq<Match>)
    requires KeepsRounds(a, b) && KeepsRounds(b, c)
    ensures KeepsRounds(a, c)
  {
  }

  /** What one step of a pass may do: progress on round r > 0 means round r had more than one
      winner and round r+1 did not exist; every existing round keeps its rows; and with the
      corrected readiness test, progress also means every earlier round is complete. */
  lemma StepGuarantees(t: Table, r: int, strict: bool)
    ensures var res := Step(t, r, strict);
      && KeepsRounds(t.matches, res.0.matches)
      && (res.1 ==> RoundIsComplete(RoundMatches(t.matches, r)))
      && (res.1 && r != 0 ==> |CollectWinners(RoundMatches(t.matches, r))| > 1 && !RoundExists(t.matches, r + 1)
                              && res.0 == CreateNextRound(t, CollectWinners(RoundMatches(t.matches, r)), r + 1))
      && (res.1 && strict ==> EarlierRoundsComplete(t.matches, r))
  {
    var res := Step(t, r, strict);
    var rm := RoundMatches(t.matches, r);
    if res.0 == t {
      SameRoundsKeepRounds(t.matches, t.matches);
    } else if r == 0 {
      SameRoundsKeepRounds(t.matches, res.0.matches);
    } else {
      CreateNextRoundKeepsRounds(t, CollectWinners(rm), r + 1);
    }
  }

  lemma {:induction false} PassKeepsRounds(t: Table, rounds: seq<int>, strict: bool)
    ensures KeepsRounds(t.matches, Pass(t, rounds, strict).0.matches)
    decreases |rounds|
  {
    if rounds == [] {
      SameRoundsKeepRounds(t.matches, t.matches);
    } else {
      var first := Step(t, rounds[0], strict);
      StepGuarantees(t, rounds[0], strict);
      PassKeepsRounds(first.0, rounds[1..], strict);
      KeepsRoundsTransitive(t.matches, first.0.matches, Pass(t, rounds, strict).0.matches);
    }
  }

  /** Automatic advancement never adds rows to a round that already had rows. */
  lemma {:induction false} AdvanceKeepsRounds(t: Table, depth: int, strict: bool)
    ensures KeepsRounds(t.matches, Advance(t, depth, strict).matches)
    decreases MaxRecursionDepth - depth
  {
    if depth >= MaxRecursionDepth {
      SameRoundsKeepRounds(t.matches, t.matches);
    } else {
      var pass := PassOnce(t, strict);
      PassKeepsRounds(t, RoundNumbers(t.matches), strict);
      if pass.1 {
        AdvanceKeepsRounds(pass.0, depth + 1, strict);
        KeepsRoundsTransitive(t.matches, pass.0.matches, Advance(t, depth, strict).matches);
      }
    }
  }

  /** As written, a round-1 whose rows all still wait for their second player (as a cut field
      with at least half of the round-1 seeds on byes is seeded, e.g. six players) counts as a
      completed round of byes: the pass creates round 2 from the bye seeds even while a play-in
      is unplayed. */
  lemma AsWrittenAdvancesPastUnplayedPlayIns(t: Table)
    requires exists i :: 0 <= i < |t.matches| && t.matches[i].InPlayoffRound(0)
                         && t.matches[i].player2.Some? && !t.matches[i].reported
    requires |RoundMatches(t.matches, 1)| >= 2
    requires forall m :: m in RoundMatches(t.matches, 1) ==> m.player1.Some? && m.player2.None?
    requires !RoundExists(t.matches, 2)
    ensures Step(t, 1, false).1 && RoundExists(Step(t, 1, false).0.matches, 2)
  {
    var rm := RoundMatches(t.matches, 1);
    assert forall i :: 0 <= i < |rm| ==> rm[i] in rm;
    var ws := CollectWinners(rm);
    assert |ws| == |rm|;
    var after := CreateNextRound(t, ws, 2);
    var rows := NextRoundMatches(ws, 2, t.nextId);
    NextRoundSeatsWinners(ws, 2, t.nextId);
    assert after.matches[|t.matches|] == ResolveBye(rows[0]);
  }

  /** With the corrected readiness test no round after the play-ins advances while a play-in
      is unplayed. */
  lemma CorrectedWaitsForPlayIns(t: Table, r: int)
    requires exists i :: 0 <= i < |t.matches| && t.matches[i].InPlayoffRound(0)
                         && t.matches[i].player2.Some? && !t.matches[i].reported
    requires r >= 1
    ensures Step(t, r, true) == (t, false)
  {
  }

  /** What admin_advance_playoff_round reports. */
  datatype ManualOutcome =
    | NotActive
    | NoMatches
    | Incomplete(unreported: nat)
    | NoWinners
    | Champion(winner: PlayerId)
    | RoundOneMissing
    | NoSlotsFilled
    | Advanced(round: int)

  /** The decisions of admin_advance_playoff_round for the current round: the new table, the
      new current round and the outcome. `crownInPlayIns` true is the code as written, which
      tests for a lone winner before it tests for the play-in round; false is the correction,
      which never crowns the winner of the play-in round. */
  function ManualAdvance(t: Table, current: int, crownInPlayIns: bool): (res: (Table, int, ManualOutcome))
    ensures res.2.Champion? ==>
      && current >= 0 && RoundIsComplete(RoundMatches(t.matches, current))
      && CollectWinners(RoundMatches(t.matches, current)) == [res.2.winner]
      && res.0 == t && res.1 == -1
      && (current == 0 ==> crownInPlayIns)
    ensures res.2.Advanced? ==>
      res.1 == res.2.round == current + 1 && RoundIsComplete(RoundMatches(t.matches, current))
    ensures res.2.Advanced? && current >= 1 && RoundExists(t.matches, current + 1) ==>
      |res.0.matches| == |t.matches| &&
      forall i :: 0 <= i < |t.matches| ==> OnlyEmptySlotsFilled(t.matches[i], res.0.matches[i])
    ensures !res.2.Champion? && !res.2.Advanced? ==> res.0 == t && res.1 == current
  {
    if current < 0 then (t, current, NotActive)
    else
      var rm := RoundMatches(t.matches, current);
      if rm == [] then (t, current, NoMatches)
      else if !RoundIsComplete(rm) then (t, current, Incomplete(UnreportedCount(rm)))
      else
        var ws := CollectWinners(rm);
        if ws == [] then (t, current, NoWinners)
        else if |ws| == 1 && (crownInPlayIns || current != 0) then (t, -1, Champion(ws[0]))
        else if current == 0 then
          var stw := SeedToWinner(rm);
          var roundOne := RoundMatches(t.matches, 1);
          if roundOne == [] then (t, current, RoundOneMissing)
          else if !AnySeedFill(t.matches, stw, 2 * |roundOne|) then (t, current, NoSlotsFilled)
          else (t.(matches := FillBySeed(t.matches, stw, 2 * |roundOne|)), 1, Advanced(1))
        else
          var next := current + 1;
          if !RoundExists(t.matches, next) then (CreateNextRound(t, ws, next), next, Advanced(next))
          else (t.(matches := FillOpen(t.matches, next, ws).0), next, Advanced(next))
  }

  /** The converses of ManualAdvance's contract: which complete rounds crown, and which advance
      and to what table. */
  lemma ManualAdvanceDecides(t: Table, current: int, crownInPlayIns: bool)
    // after the play-ins, a complete round with a single winner crowns that winner ...
    ensures var res := ManualAdvance(t, current, crownInPlayIns);
      var rm := RoundMatches(t.matches, current); var ws := CollectWinners(rm);
      current >= 1 && rm != [] && RoundIsComplete(rm) && |ws| == 1 ==> res == (t, -1, Champion(ws[0]))
    // ... and one with two or more winners moves on: a new round built from the winners, or
    // the empty seats of an existing next round filled with them in order
    ensures var res := ManualAdvance(t, current, crownInPlayIns);
      var rm := RoundMatches(t.matches, current); var ws := CollectWinners(rm);
      current >= 1 && rm != [] && RoundIsComplete(rm) && |ws| >= 2 ==>
        && res.1 == current + 1 && res.2 == Advanced(current + 1)
        && (!RoundExists(t.matches, current + 1) ==> res.0 == CreateNextRound(t, ws, current + 1))
        && (RoundExists(t.matches, current + 1) ==> res.0 == t.(matches := FillOpen(t.matches, current + 1, ws).0))
    // a complete play-in round that crowns nobody advances exactly when the seed-keyed fill of
    // round 1 seats someone, and the new table is that fill
    ensures var res := ManualAdvance(t, current, crownInPlayIns);
      var rm := RoundMatches(t.matches, 0); var ws := CollectWinners(rm);
      var roundOne := RoundMatches(t.matches, 1); var stw := SeedToWinner(rm);
      current == 0 && rm != [] && RoundIsComplete(rm) && ws != [] && (|ws| >= 2 || !crownInPlayIns) ==>
        && (res.2 == Advanced(1) <==> roundOne != [] && AnySeedFill(t.matches, stw, 2 * |roundOne|))
        && (res.2 == Advanced(1) ==> res.0 == t.(matches := FillBySeed(t.matches, stw, 2 * |roundOne|)))
  {
  }

  /** A complete play-in round with winners, a round 1, and a seed-keyed fill that seats
      someone there. */
  predicate PlayInFillApplies(t: Table) {
    var rm := RoundMatches(t.matches, 0); var roundOne := RoundMatches(t.matches, 1);
    && rm != [] && RoundIsComplete(rm) && CollectWinners(rm) != []
    && roundOne != [] && AnySeedFill(t.matches, SeedToWinner(rm), 2 * |roundOne|)
  }

  /** The corrected manual advance of a complete play-in round whose seed-keyed fill seats
      someone in round 1: the table becomes that fill and round 1 becomes current. */
  lemma PlayInRoundAdvances(t: Table, filled: seq<Match>)
    requires PlayInFillApplies(t)
    requires filled == FillBySeed(t.matches, SeedToWinner(RoundMatches(t.matches, 0)), 2 * |RoundMatches(t.matches, 1)|)
    ensures ManualAdvance(t, 0, false) == (t.(matches := filled), 1, Advanced(1))
  {
  }

  /** As written, a play-in round with a single game (3, 5, 9, 17, ... players) has one winner,
      and advancing it crowns that winner champion and ends the playoffs, although round 1 is
      still to be played. */
  lemma AsWrittenCrownsPlayInWinner(t: Table, w: PlayerId)
    requires RoundMatches(t.matches, 0) != [] && RoundIsComplete(RoundMatches(t.matches, 0))
    requires CollectWinners(RoundMatches(t.matches, 0)) == [w]
    ensures ManualAdvance(t, 0, true) == (t, -1, Champion(w))
  {
  }

  /** The manual advance keeps the table well formed. */
  lemma ManualAdvanceWellFormed(t: Table, current: int, crownInPlayIns: bool)
    requires WellFormed(t)
    ensures WellFormed(ManualAdvance(t, current, crownInPlayIns).0)
  {
    var rm := RoundMatches(t.matches, current);
    var ws := CollectWinners(rm);
    if current < 0 || rm == [] || !RoundIsComplete(rm) || ws == [] || (|ws| == 1 && (crownInPlayIns || current != 0)) {
    } else if current == 0 {
      FillBySeedWellFormed(t, SeedToWinner(rm), 2 * |RoundMatches(t.matches, 1)|);
    } else if RoundExists(t.matches, current + 1) {
      FillOpenWellFormed(t, current + 1, ws);
    } else {
      CreateNextRoundWellFormed(t, ws, current + 1);
    }
  }

  /** The manual advance, in either crowning order, never adds rows to a round that already exists. */
  lemma ManualAdvanceKeepsRounds(t: Table, current: int, crownInPlayIns: bool)
    ensures KeepsRounds(t.matches, ManualAdvance(t, current, crownInPlayIns).0.matches)
  {
    var res := ManualAdvance(t, current, crownInPlayIns);
    if res.0 == t {
      SameRoundsKeepRounds(t.matches, t.matches);
    } else if current == 0 || RoundExists(t.matches, current + 1) {
      SameRoundsKeepRounds(t.matches, res.0.matches);
    } else {
      CreateNextRoundKeepsRounds(t, CollectWinners(RoundMatches(t.matches, current)), current + 1);
    }
  }


  /** The last round of `rounds` that holds exactly one playoff row. */
  function LastSingleRound(ms: seq<Match>, rounds: seq<int>): (r: Option<int>)
    ensures r.Some? ==> r.value in rounds && |RoundMatches(ms, r.value)| == 1
    ensures r.None? ==> forall q :: q in rounds ==> |RoundMatches(ms, q)| != 1
  {
    if rounds == [] then None
    else
      var last := rounds[|rounds| - 1];
      if |RoundMatches(ms, last)| == 1 then Some(last) else LastSingleRound(ms, rounds[..|rounds| - 1])
  }

  /** Scanning an ascending list from its end finds the highest single-row round. */
  lemma {:induction false} LastSingleRoundIsHighest(ms: seq<Match>, rounds: seq<int>)
    requires Increasing(rounds)
    ensures LastSingleRound(ms, rounds).Some? ==>
      forall q :: q in rounds && q > LastSingleRound(ms, rounds).value ==> |RoundMatches(ms, q)| != 1
  {
    if rounds != [] {
      var last := rounds[|rounds| - 1];
      var front := rounds[..|rounds| - 1];
      if |RoundMatches(ms, last)| != 1 {
        LastSingleRoundIsHighest(ms, front);
        forall q | q in rounds && LastSingleRound(ms, rounds).Some? && q > LastSingleRound(ms, rounds).value
          ensures |RoundMatches(ms, q)| != 1
        {
          if q != last {
            assert q in front;
          }
        }
      }
    }
  }

  /** The finals: the highest playoff round with exactly one match. */
  function FinalsRound(ms: seq<Match>): Option<int> {
    LastSingleRound(ms, RoundNumbers(ms))
  }

  /** get_playoff_champion, up to the lookup of the winner's players row: the winner of the
      finals once the finals are reported with two players. */
  function PlayoffChampion(ms: seq<Match>): Option<PlayerId> {
    match FinalsRound(ms)
    case None => None
    case Some(f) =>
      var final := RoundMatches(ms, f)[0];
      if !final.reported || final.player2.None? then None
      else DetermineWinner(final)
  }

  /** A champion exists exactly when some round holds a single reported two-player match that
      has a winner, the highest single-match round does, and the champion played in it. */
  lemma ChampionWonTheFinal(ms: seq<Match>)
    ensures FinalsRound(ms).None? <==> forall q :: RoundExists(ms, q) ==> |RoundMatches(ms, q)| != 1
    ensures PlayoffChampion(ms).Some? ==>
      && FinalsRound(ms).Some?
      && var f := FinalsRound(ms).value;
      && RoundExists(ms, f) && |RoundMatches(ms, f)| == 1
      && var final := RoundMatches(ms, f)[0];
      && final in ms && final.reported && final.player2.Some? && !final.doubleForfeit
      && (PlayoffChampion(ms) == final.player1 || PlayoffChampion(ms) == final.player2)
      && (forall q :: RoundExists(ms, q) && q > f ==> |RoundMatches(ms, q)| != 1)
    // once the final is reported with two players, its winner by games or totals is the
    // champion, and a final without a winner (a tie, a double forfeit) leaves no champion
    ensures FinalsRound(ms).Some? ==>
      var final := RoundMatches(ms, FinalsRound(ms).value)[0];
      final.reported && final.player2.Some? ==> PlayoffChampion(ms) == DetermineWinner(final)
    ensures FinalsRound(ms).Some? ==>
      var final := RoundMatches(ms, FinalsRound(ms).value)[0];
      !final.reported || final.player2.None? ==> PlayoffChampion(ms).None?
  {
    var rounds := RoundNumbers(ms);
    forall q ensures q in rounds <==> RoundExists(ms, q) {
      RoundNumbersListRounds(ms, q);
    }
    LastSingleRoundIsHighest(ms, rounds);
  }
}
