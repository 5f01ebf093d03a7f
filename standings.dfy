/** Standings: folding reported matches into per-player win/loss/point rows and ranking them. */
module Standings {
  import opened Wrappers
  import opened MatchRecord
  import opened Outcome
  import opened Text
  import opened Sorting

  datatype Player = Player(id: PlayerId, firstName: string, lastName: string)

  datatype StatRow = StatRow(playerId: PlayerId, firstName: string, lastName: string,
                             wins: nat, losses: nat, pointDiff: int, pointsScored: int)

  /** A standings row with its 1-based position. */
  datatype RankedRow = RankedRow(row: StatRow, rank: nat)

  /** What one match adds to one side's row. */
  datatype Delta = Delta(wins: nat, losses: nat, points: int, diff: int)

  function AddDelta(r: StatRow, d: Delta): StatRow {
    r.(wins := r.wins + d.wins, losses := r.losses + d.losses,
       pointsScored := r.pointsScored + d.points, pointDiff := r.pointDiff + d.diff)
  }

  /** The increments a match brings to player 1's and player 2's rows. */
  function MatchDeltas(m: Match): (d: (Delta, Delta))
    // a double forfeit is one loss for each side and no points
    ensures m.doubleForfeit ==> d.0 == Delta(0, 1, 0, 0) && d.1 == Delta(0, 1, 0, 0)
    // otherwise the point differentials cancel out
    ensures !m.doubleForfeit ==> d.0.diff + d.1.diff == 0 && d.0.diff == d.0.points - d.1.points
    ensures !m.doubleForfeit ==> (d.0.points, d.1.points) == AggregatePoints(m)
    // with game scores: exactly one win and one loss ...
    ensures (!m.doubleForfeit && ExtractGameScores(m) != []) ==>
              d.0.wins + d.1.wins == 1 && d.0.wins == d.1.losses && d.1.wins == d.0.losses
    // ... player 1 winning exactly when it won more games, player 2 taking a game-win tie
    ensures (!m.doubleForfeit && ExtractGameScores(m) != []) ==>
              (d.0.wins == 1 <==> GameWins(ExtractGameScores(m)).0 > GameWins(ExtractGameScores(m)).1)
    // with totals only: equal totals decide nothing
    ensures (!m.doubleForfeit && ExtractGameScores(m) == [] && AggregatePoints(m).0 == AggregatePoints(m).1) ==>
              d.0.wins == d.1.wins == d.0.losses == d.1.losses == 0
    ensures (!m.doubleForfeit && ExtractGameScores(m) == [] && AggregatePoints(m).0 != AggregatePoints(m).1) ==>
              d.0.wins + d.1.wins == 1 && d.0.wins == d.1.losses && d.1.wins == d.0.losses
    ensures (!m.doubleForfeit && ExtractGameScores(m) == []) ==>
              (d.0.wins == 1 <==> AggregatePoints(m).0 > AggregatePoints(m).1) &&
              (d.1.wins == 1 <==> AggregatePoints(m).1 > AggregatePoints(m).0)
  {
    if m.doubleForfeit then (Delta(0, 1, 0, 0), Delta(0, 1, 0, 0))
    else
      var scores := ExtractGameScores(m);
      var t := AggregatePoints(m);
      var firstWins :=
        if scores != [] then GameWins(scores).0 > GameWins(scores).1 else t.0 > t.1;
      var decided := scores != [] || t.0 != t.1;
      var w1: nat := if decided && firstWins then 1 else 0;
      var w2: nat := if decided && !firstWins then 1 else 0;
      (Delta(w1, w2, t.0, t.0 - t.1), Delta(w2, w1, t.1, t.1 - t.0))
  }

  /** apply_match_to_stats as a value: nothing happens unless both players have a row; player 2's
      increments are applied to the row as player 1's left it (the two may be the same row). */
  function ApplyMatch(stats: map<PlayerId, StatRow>, m: Match): (r: map<PlayerId, StatRow>)
    ensures r.Keys == stats.Keys
    ensures (m.player1.None? || m.player2.None? || m.player1.value !in stats || m.player2.value !in stats) ==> r == stats
    ensures forall p :: p in stats && Some(p) != m.player1 && Some(p) != m.player2 ==> r[p] == stats[p]
    // two distinct players: each row gains that side's increments
    ensures m.player1.Some? && m.player2.Some? && m.player1.value in stats && m.player2.value in stats &&
            m.player1 != m.player2 ==>
              r[m.player1.value] == AddDelta(stats[m.player1.value], MatchDeltas(m).0) &&
              r[m.player2.value] == AddDelta(stats[m.player2.value], MatchDeltas(m).1)
    // one player on both sides: player 2's increments land on top of player 1's
    ensures m.player1.Some? && m.player1 == m.player2 && m.player1.value in stats ==>
              r[m.player1.value] == AddDelta(AddDelta(stats[m.player1.value], MatchDeltas(m).0), MatchDeltas(m).1)
  {
    if m.player1.None? || m.player2.None? || m.player1.value !in stats || m.player2.value !in stats then stats
    else
      var a, b := m.player1.value, m.player2.value;
      var d := MatchDeltas(m);
      Bumped(Bumped(stats, a, d.0), b, d.1)
  }

  /** The row dictionary as a mutable table, updated field by field like the source does. */
  class StatsTable {
    var rows: map<PlayerId, StatRow>

    constructor (players: seq<Player>)
      ensures rows == InitialStats(players)
    {
      var stats := map[];
      var i := 0;
      while i < |players|
        invariant 0 <= i <= |players|
        invariant stats == InitialStats(players[..i])
      {
        assert players[..i + 1][..i] == players[..i];
        stats := stats[players[i].id := ZeroRow(players[i])];
        i := i + 1;
      }
      assert players[..i] == players;
      rows := stats;
    }

    /** Adds `d` to the row filed under `id`. */
    method Bump(id: PlayerId, d: Delta)
      requires id in rows
      modifies this
      ensures rows == Bumped(old(rows), id, d)
    {
      rows := rows[id := AddDelta(rows[id], d)];
    }

    method ApplyMatchToStats(m: Match)
      modifies this
      ensures rows == ApplyMatch(old(rows), m)
    {
      if m.player1.None? || m.player2.None? || m.player1.value !in rows || m.player2.value !in rows {
        return;
      }
      var a, b := m.player1.value, m.player2.value;
      var loss, win := Delta(0, 1, 0, 0), Delta(1, 0, 0, 0);
      if m.doubleForfeit {
        Bump(a, loss);
        Bump(b, loss);
        return;
      }
      var scores := ExtractGameScores(m);
      var t := AggregatePoints(m);
      ghost var s0 := rows;
      Bump(a, Delta(0, 0, t.0, t.0 - t.1));
      Bump(b, Delta(0, 0, t.1, t.1 - t.0));
      ghost var s2 := rows;
      var decided, firstWins := false, false;
      if scores != [] {
        var w := GameWins(scores);
        decided, firstWins := true, w.0 > w.1;
      } else if t.0 != t.1 {
        decided, firstWins := true, t.0 > t.1;
      }
      if decided {
        if firstWins {
          Bump(a, win);
          Bump(b, loss);
        } else {
          Bump(b, win);
          Bump(a, loss);
        }
      }
      ghost var pa, pb := Delta(0, 0, t.0, t.0 - t.1), Delta(0, 0, t.1, t.1 - t.0);
      ResultBumps(s0, a, b, pa, pb, decided, firstWins);
      ghost var d := MatchDeltas(m);
      assert d.0 == if !decided then pa else if firstWins then Plus(pa, win) else Plus(pa, loss);
      assert d.1 == if !decided then pb else if firstWins then Plus(pb, loss) else Plus(pb, win);
    }
  }

  function Bumped(stats: map<PlayerId, StatRow>, id: PlayerId, d: Delta): map<PlayerId, StatRow>
    requires id in stats
  {
    stats[id := AddDelta(stats[id], d)]
  }

  function Plus(d: Delta, e: Delta): Delta {
    Delta(d.wins + e.wins, d.losses + e.losses, d.points + e.points, d.diff + e.diff)
  }

  /** The point increments followed by the win and loss increments, as the source orders them,
      amount to one combined increment per side. */
  lemma ResultBumps(s: map<PlayerId, StatRow>, a: PlayerId, b: PlayerId, pa: Delta, pb: Delta,
                    decided: bool, firstWins: bool)
    requires a in s && b in s
    ensures var loss, win := Delta(0, 1, 0, 0), Delta(1, 0, 0, 0);
      var s2 := Bumped(Bumped(s, a, pa), b, pb);
      var fin := if !decided then s2 else if firstWins then Bumped(Bumped(s2, a, win), b, loss)
                 else Bumped(Bumped(s2, b, win), a, loss);
      var da := if !decided then pa else if firstWins then Plus(pa, win) else Plus(pa, loss);
      var db := if !decided then pb else if firstWins then Plus(pb, loss) else Plus(pb, win);
      fin == Bumped(Bumped(s, a, da), b, db)
  {
  }

  function ZeroRow(p: Player): StatRow {
    StatRow(p.id, p.firstName, p.lastName, 0, 0, 0, 0)
  }

  /** The zeroed row dictionary keyed by player id (a later duplicate id would replace an earlier). */
  function InitialStats(players: seq<Player>): (r: map<PlayerId, StatRow>)
    ensures forall p :: p in players ==> p.id in r
    ensures forall id :: id in r ==> r[id].playerId == id && r[id].wins == r[id].losses == 0
    ensures forall id :: id in r ==> r[id].pointDiff == 0 && r[id].pointsScored == 0
    ensures forall id :: id in r ==>
              exists p :: p in players && p.id == id && r[id].firstName == p.firstName && r[id].lastName == p.lastName
  {
    if players == [] then map[]
    else
      var prev := InitialStats(players[..|players| - 1]);
      var last := players[|players| - 1];
      assert forall p :: p in players[..|players| - 1] ==> p in players;
      assert forall p :: p in players ==> p in players[..|players| - 1] || p == last;
      prev[last.id := ZeroRow(last)]
  }

  /** fetch_ranked_matches: reported matches with both players, playoff ones only on request. */
  function RankedMatches(ms: seq<Match>, includePlayoffs: bool): (r: seq<Match>)
    ensures forall m :: m in r <==> m in ms && m.reported && m.player1.Some? && m.player2.Some? &&
                                    (includePlayoffs || !m.playoff)
    ensures forall m :: multiset(r)[m] == (if m.reported && m.player1.Some? && m.player2.Some? &&
                                              (includePlayoffs || !m.playoff) then multiset(ms)[m] else 0)
  {
    if ms == [] then []
    else
      var rest := RankedMatches(ms[1..], includePlayoffs);
      assert forall m :: m in ms <==> m == ms[0] || m in ms[1..];
      assert ms == [ms[0]] + ms[1..];
      assert multiset(ms) == multiset{ms[0]} + multiset(ms[1..]);
      if ms[0].reported && ms[0].player1.Some? && ms[0].player2.Some? && (includePlayoffs || !ms[0].playoff)
      then [ms[0]] + rest else rest
  }

  /** The row dictionary after every match of `ms`, in order. */
  function FoldStats(stats: map<PlayerId, StatRow>, ms: seq<Match>): (r: map<PlayerId, StatRow>)
    ensures r.Keys == stats.Keys
  {
    if ms == [] then stats else ApplyMatch(FoldStats(stats, ms[..|ms| - 1]), ms[|ms| - 1])
  }

  function MatchStats(players: seq<Player>, ms: seq<Match>, includePlayoffs: bool): map<PlayerId, StatRow> {
    FoldStats(InitialStats(players), RankedMatches(ms, includePlayoffs))
  }

  predicate DistinctIds(players: seq<Player>) {
    forall i, j :: 0 <= i < j < |players| ==> players[i].id != players[j].id
  }

  /** `stats.values()`: the rows in the order the players were listed. */
  function PlayerRows(stats: map<PlayerId, StatRow>, players: seq<Player>): (r: seq<StatRow>)
    requires forall p :: p in players ==> p.id in stats
    ensures |r| == |players|
    ensures forall i :: 0 <= i < |players| ==> r[i] == stats[players[i].id]
  {
    seq(|players|, i requires 0 <= i < |players| => stats[players[i].id])
  }

  /** The sort key (-wins, -point_diff, -points_scored, last_name, first_name) compared with <=. */
  predicate RowLeq(a: StatRow, b: StatRow) {
    if a.wins != b.wins then a.wins > b.wins
    else if a.pointDiff != b.pointDiff then a.pointDiff > b.pointDiff
    else if a.pointsScored != b.pointsScored then a.pointsScored > b.pointsScored
    else if a.lastName != b.lastName then StrLess(a.lastName, b.lastName)
    else StrLeq(a.firstName, b.firstName)
  }

  lemma RowLeqTotalPreorder()
    ensures TotalPreorder(RowLeq)
  {
    forall a, b ensures RowLeq(a, b) || RowLeq(b, a) {
      StrLessTotal(a.lastName, b.lastName);
      StrLessTotal(a.firstName, b.firstName);
    }
    forall a, b, c | RowLeq(a, b) && RowLeq(b, c) ensures RowLeq(a, c) {
      if a.lastName != b.lastName && b.lastName != c.lastName && StrLess(a.lastName, b.lastName) && StrLess(b.lastName, c.lastName) {
        StrLessTransitive(a.lastName, b.lastName, c.lastName);
        StrLessIrreflexive(a.lastName);
      }
      if a.lastName != b.lastName && StrLess(a.lastName, b.lastName) && b.lastName == c.lastName {
      }
      if a.firstName != b.firstName && b.firstName != c.firstName && StrLess(a.firstName, b.firstName) && StrLess(b.firstName, c.firstName) {
        StrLessTransitive(a.firstName, b.firstName, c.firstName);
      }
    }
  }

  function RowsOf(r: seq<RankedRow>): (rows: seq<StatRow>)
    ensures |rows| == |r| && forall i :: 0 <= i < |r| ==> rows[i] == r[i].row
  {
    seq(|r|, i requires 0 <= i < |r| => r[i].row)
  }

  function Ranked(sorted: seq<StatRow>): (r: seq<RankedRow>)
    ensures |r| == |sorted| && forall i :: 0 <= i < |r| ==> r[i] == RankedRow(sorted[i], i + 1)
  {
    seq(|sorted|, i requires 0 <= i < |sorted| => RankedRow(sorted[i], i + 1))
  }

  /** calculate_rankings as a value: the players' rows after every ranked match, stably sorted
      by the five-part key and numbered from 1. */
  function Standings(players: seq<Player>, ms: seq<Match>, includePlayoffs: bool): (r: seq<RankedRow>)
    ensures |r| == |players|
    ensures forall i :: 0 <= i < |r| ==> r[i].rank == i + 1
  {
    if players == [] then []
    else
      RowLeqTotalPreorder();
      Ranked(SortBy(PlayerRows(MatchStats(players, ms, includePlayoffs), players), RowLeq))
  }

  /** The standings list every player's row exactly as often as the player is listed, best first. */
  lemma StandingsArePermutationSorted(players: seq<Player>, ms: seq<Match>, includePlayoffs: bool)
    ensures var r := Standings(players, ms, includePlayoffs);
      && multiset(RowsOf(r)) == multiset(PlayerRows(MatchStats(players, ms, includePlayoffs), players))
      && forall i, j :: 0 <= i < j < |r| ==> RowLeq(r[i].row, r[j].row)
  {
    if players != [] {
      RowLeqTotalPreorder();
      var rows := PlayerRows(MatchStats(players, ms, includePlayoffs), players);
      RankedSorted(Standings(players, ms, includePlayoffs), SortBy(rows, RowLeq));
    }
  }

  /** Ranking a sorted list of rows keeps its rows and their order. */
  lemma RankedSorted(r: seq<RankedRow>, sorted: seq<StatRow>)
    requires r == Ranked(sorted) && SortedBy(sorted, RowLeq)
    ensures RowsOf(r) == sorted
    ensures forall i, j :: 0 <= i < j < |r| ==> RowLeq(r[i].row, r[j].row)
  {
    assert RowsOf(r) == sorted;
  }

  /** Players whose rows tie on the whole key keep the order of the players table. */
  lemma StandingsTiesKeepRosterOrder(players: seq<Player>, ms: seq<Match>, includePlayoffs: bool, y: StatRow)
    ensures var rows := PlayerRows(MatchStats(players, ms, includePlayoffs), players);
      EquivalentTo(RowsOf(Standings(players, ms, includePlayoffs)), RowLeq, y) == EquivalentTo(rows, RowLeq, y)
  {
    if players != [] {
      var rows := PlayerRows(MatchStats(players, ms, includePlayoffs), players);
      RowLeqTotalPreorder();
      RankedSorted(Standings(players, ms, includePlayoffs), SortBy(rows, RowLeq));
      SortByStable(rows, RowLeq, y);
    }
  }

  /** Each player appears in the standings, with the row the matches gave that player. */
  lemma StandingsListEveryPlayer(players: seq<Player>, ms: seq<Match>, includePlayoffs: bool, p: Player)
    requires p in players
    ensures var r := Standings(players, ms, includePlayoffs);
      exists i :: 0 <= i < |r| && r[i].row.playerId == p.id &&
                  r[i].row == MatchStats(players, ms, includePlayoffs)[p.id]
  {
    var stats := MatchStats(players, ms, includePlayoffs);
    var rows := PlayerRows(stats, players);
    var r := Standings(players, ms, includePlayoffs);
    StandingsArePermutationSorted(players, ms, includePlayoffs);
    var k :| 0 <= k < |players| && players[k] == p;
    RankedRowsCover(rows, r, k);
    FoldStatsKeepsIds(InitialStats(players), RankedMatches(ms, includePlayoffs));
    assert stats[p.id].playerId == p.id;
  }

  /** A row of a list reappears in any numbering of a permutation of that list. */
  lemma RankedRowsCover(rows: seq<StatRow>, r: seq<RankedRow>, k: int)
    requires multiset(RowsOf(r)) == multiset(rows) && 0 <= k < |rows|
    ensures exists i :: 0 <= i < |r| && r[i].row == rows[k]
  {
    assert rows[k] in multiset(RowsOf(r));
    var i :| 0 <= i < |r| && RowsOf(r)[i] == rows[k];
  }

  /** Every row stays filed under its own player id. */
  lemma {:induction false} FoldStatsKeepsIds(stats: map<PlayerId, StatRow>, ms: seq<Match>)
    requires forall id :: id in stats ==> stats[id].playerId == id
    ensures forall id :: id in FoldStats(stats, ms) ==> FoldStats(stats, ms)[id].playerId == id
    decreases |ms|
  {
    if ms != [] {
      FoldStatsKeepsIds(stats, ms[..|ms| - 1]);
    }
  }

  /** calculate_rankings: zeroed rows for every player, every ranked match applied to the table
      in turn, the rows sorted by the key and numbered from 1. */
  method CalculateRankings(players: seq<Player>, ms: seq<Match>, includePlayoffs: bool)
    returns (ordered: seq<RankedRow>)
    ensures ordered == Standings(players, ms, includePlayoffs)
  {
    if |players| == 0 {
      return [];
    }
    var stats := TallyStats(players, RankedMatches(ms, includePlayoffs));
    var rows := PlayerRows(stats, players);
    RowLeqTotalPreorder();
    var sorted := SortBy(rows, RowLeq);
    ordered := NumberRows(sorted);
  }

  /** The rows after applying every ranked match in turn to a fresh table. */
  method TallyStats(players: seq<Player>, ranked: seq<Match>) returns (stats: map<PlayerId, StatRow>)
    ensures stats == FoldStats(InitialStats(players), ranked)
  {
    var table := new StatsTable(players);
    var i := 0;
    while i < |ranked|
      invariant 0 <= i <= |ranked|
      invariant table.rows == FoldStats(InitialStats(players), ranked[..i])
    {
      assert ranked[..i + 1][..i] == ranked[..i];
      table.ApplyMatchToStats(ranked[i]);
      i := i + 1;
    }
    assert ranked[..i] == ranked;
    stats := table.rows;
  }

  /** Numbers the sorted rows from 1 (`rank = idx` for `enumerate(rows, start=1)`). */
  method NumberRows(sorted: seq<StatRow>) returns (ordered: seq<RankedRow>)
    ensures ordered == Ranked(sorted)
  {
    ordered := [];
    var k := 0;
    while k < |sorted|
      invariant 0 <= k <= |sorted|
      invariant |ordered| == k
      invariant forall j :: 0 <= j < k ==> ordered[j] == RankedRow(sorted[j], j + 1)
    {
      ordered := ordered + [RankedRow(sorted[k], k + 1)];
      k := k + 1;
    }
  }

  /** Sum of the point differentials of the rows filed under `ids`. */
  function SumDiff(stats: map<PlayerId, StatRow>, ids: seq<PlayerId>): int
    requires forall id :: id in ids ==> id in stats
  {
    if ids == [] then 0 else stats[ids[0]].pointDiff + SumDiff(stats, ids[1..])
  }

  predicate DistinctSeq(ids: seq<PlayerId>) {
    forall i, j :: 0 <= i < j < |ids| ==> ids[i] != ids[j]
  }

  lemma {:induction false} SumDiffUpdate(stats: map<PlayerId, StatRow>, ids: seq<PlayerId>, a: PlayerId, x: StatRow)
    requires forall id :: id in ids ==> id in stats
    requires a in stats && DistinctSeq(ids)
    ensures SumDiff(stats[a := x], ids) ==
            SumDiff(stats, ids) + (if a in ids then x.pointDiff - stats[a].pointDiff else 0)
  {
    if ids != [] {
      SumDiffUpdate(stats, ids[1..], a, x);
      assert a in ids <==> a == ids[0] || a in ids[1..];
      if a == ids[0] { assert a !in ids[1..]; }
    }
  }

  /** One match never changes the sum of the point differentials over all rows. */
  lemma ApplyMatchKeepsDiffSum(stats: map<PlayerId, StatRow>, m: Match, ids: seq<PlayerId>)
    requires DistinctSeq(ids) && forall id :: id in stats <==> id in ids
    ensures SumDiff(ApplyMatch(stats, m), ids) == SumDiff(stats, ids)
  {
    if !(m.player1.None? || m.player2.None? || m.player1.value !in stats || m.player2.value !in stats) {
      var a, b := m.player1.value, m.player2.value;
      var d := MatchDeltas(m);
      var s1 := stats[a := AddDelta(stats[a], d.0)];
      SumDiffUpdate(stats, ids, a, AddDelta(stats[a], d.0));
      SumDiffUpdate(s1, ids, b, AddDelta(s1[b], d.1));
    }
  }

  lemma {:induction false} FoldStatsKeepsDiffSum(stats: map<PlayerId, StatRow>, ms: seq<Match>, ids: seq<PlayerId>)
    requires DistinctSeq(ids) && forall id :: id in stats <==> id in ids
    ensures SumDiff(FoldStats(stats, ms), ids) == SumDiff(stats, ids)
    decreases |ms|
  {
    if ms != [] {
      FoldStatsKeepsDiffSum(stats, ms[..|ms| - 1], ids);
      ApplyMatchKeepsDiffSum(FoldStats(stats, ms[..|ms| - 1]), ms[|ms| - 1], ids);
    }
  }

  function Ids(players: seq<Player>): (ids: seq<PlayerId>)
    ensures |ids| == |players| && forall i :: 0 <= i < |players| ==> ids[i] == players[i].id
  {
    seq(|players|, i requires 0 <= i < |players| => players[i].id)
  }

  lemma {:induction false} SumDiffZero(stats: map<PlayerId, StatRow>, ids: seq<PlayerId>)
    requires forall id :: id in ids ==> id in stats && stats[id].pointDiff == 0
    ensures SumDiff(stats, ids) == 0
  {
    if ids != [] { SumDiffZero(stats, ids[1..]); }
  }

  /** Across all players, the point differentials of the standings add up to zero. */
  lemma PointDiffsSumToZero(players: seq<Player>, ms: seq<Match>, includePlayoffs: bool)
    requires DistinctIds(players)
    ensures SumDiff(MatchStats(players, ms, includePlayoffs), Ids(players)) == 0
  {
    var init := InitialStats(players);
    var ids := Ids(players);
    forall id ensures id in init <==> id in ids {
      if id in init {
        var p :| p in players && p.id == id;
        var k :| 0 <= k < |players| && players[k] == p;
        assert ids[k] == id;
      }
    }
    SumDiffZero(init, ids);
    FoldStatsKeepsDiffSum(init, RankedMatches(ms, includePlayoffs), ids);
  }
}
