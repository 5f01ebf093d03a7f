/** What the bracket and schedule pages show: a view of each match with its report gate, the
    names of playoff rounds, and the bracket layout. The layout orders the rounds, numbers the
    matches of each round for display and links every match to the slot of the next round that
    its winner moves into; the playoff preview builds such a layout from the seeds alone. */
module Presentation {
  import opened Wrappers
  import opened MatchRecord
  import opened Text
  import opened Sorting
  import opened Outcome
  import opened Seeding
  import opened Advancement

  // ---------------------------------------------------------------------------------------
  // The view of one match

  /** The fields build_match_view adds to a match row. */
  datatype MatchView = MatchView(row: Match, isBye: bool, doubleForfeit: bool,
                                 summary: Option<string>, gameScores: seq<Score>,
                                 totals: (int, int), canReport: bool)

  /** Whether the page offers a report form for the match. A playoff row is reportable only in
      the current playoff round (no round counts as -1); a regular-season row, when a week is
      current, only in that week; neither when it is a bye or a double forfeit. */
  predicate CanReport(m: Match, currentWeek: Option<int>, currentPlayoffRound: Option<int>) {
    var isBye := m.player2.None?;
    if m.playoff then
      var current := currentPlayoffRound.GetOr(-1);
      current >= 0 && m.playoffRound == Some(current) && !isBye && !m.doubleForfeit
      && m.player2.Some?
    else if currentWeek.Some? then
      if isBye || m.doubleForfeit then false
      else if m.week.None? then false
      else m.week.value == currentWeek.value
    else !isBye && !m.doubleForfeit
  }

  function BuildMatchView(m: Match, currentWeek: Option<int>, currentPlayoffRound: Option<int>)
    : (v: MatchView)
    ensures v.row == m && v.isBye == m.player2.None? && v.doubleForfeit == m.doubleForfeit
    ensures v.summary == Some("Bye") <==> v.isBye
    ensures v.summary.None? <==> !v.isBye && !v.doubleForfeit && !m.reported
    ensures v.canReport ==> !v.isBye && !v.doubleForfeit
    ensures |v.gameScores| <= MaxGames
    ensures v.gameScores != [] ==> v.totals == (SumFirst(v.gameScores), SumSecond(v.gameScores))
  {
    MatchView(m, m.player2.None?, m.doubleForfeit, FormatMatchSummary(m), ExtractGameScores(m),
              AggregatePoints(m), CanReport(m, currentWeek, currentPlayoffRound))
  }

  /** A report form is offered only for a match both players can still play: in the playoffs
      a row of the current round, in the season a row of the current week when one is set. */
  lemma ReportableMatchIsPlayable(m: Match, currentWeek: Option<int>, currentPlayoffRound: Option<int>)
    requires CanReport(m, currentWeek, currentPlayoffRound)
    ensures m.player1.Some? || m.player2.Some?
    ensures m.player2.Some? && !m.doubleForfeit
    ensures m.playoff ==> currentPlayoffRound.Some? && currentPlayoffRound.value >= 0
                          && m.InPlayoffRound(currentPlayoffRound.value)
    ensures !m.playoff && currentWeek.Some? ==> m.week == currentWeek
  {
  }

  lemma {:induction false} RowOfRoundIsListed(ms: seq<Match>, m: Match, r: int)
    requires m in ms && m.InPlayoffRound(r)
    ensures m in RoundMatches(ms, r)
  {
    if ms[0] != m {
      assert m in ms[1..];
      RowOfRoundIsListed(ms[1..], m, r);
    }
  }

  /** Every playoff row the page lets a player report is among the rows the advancement
      examines for the current round, and no row of another round is reportable. */
  lemma ReportablePlayoffRowIsInCurrentRound(ms: seq<Match>, m: Match, currentWeek: Option<int>,
                                             current: int, r: int)
    requires m in ms && m.playoff && m.playoffRound == Some(r)
    ensures CanReport(m, currentWeek, Some(current)) ==> r == current && m in RoundMatches(ms, current)
    ensures r == current && current >= 0 && m.player2.Some? && !m.doubleForfeit
            ==> CanReport(m, currentWeek, Some(current))
  {
    if CanReport(m, currentWeek, Some(current)) {
      RowOfRoundIsListed(ms, m, current);
    }
  }

  // ---------------------------------------------------------------------------------------
  // Round names

  /** The match counts that have a name of their own: 1, 2, 4, 8, 16 and 32. */
  predicate NamedCount(c: int) {
    c == 1 || c == 2 || c == 4 || c == 8 || c == 16 || c == 32
  }

  /** label_for_round: round 0 is the play-in round; a known non-zero match count names the
      round by the players left; otherwise a fixed table for rounds 1 to 5, else "Round n". */
  function LabelForRound(round: int, count: Option<int>): (name: string)
    ensures |name| >= 6
  {
    if round == 0 then "Play-in Round"
    else if count.Some? && count.value != 0 then
      var c := count.value;
      if c == 1 then "Finals"
      else if c == 2 then "Semifinals"
      else if c == 4 then "Quarterfinals"
      else if c == 8 then "Round of 16"
      else if c == 16 then "Round of 32"
      else if c == 32 then "Round of 64"
      else if round == 1 then "First Round"
      else "Round " + IntToString(round)
    else if round == 1 then "First Round"
    else if round == 2 then "Round of 16"
    else if round == 3 then "Quarterfinals"
    else if round == 4 then "Semifinals"
    else if round == 5 then "Finals"
    else "Round " + IntToString(round)
  }

  /** Only round 0 is called the play-in round, and a round with a known count is called the
      final exactly when it has one match. */
  lemma PlayInAndFinalsLabels(round: int, c: int)
    requires c != 0
    ensures LabelForRound(round, Some(c)) == "Play-in Round" <==> round == 0
    ensures round != 0 ==> (LabelForRound(round, Some(c)) == "Finals" <==> c == 1)
  {
    if round != 0 && !NamedCount(c) && round != 1 {
      var text := LabelForRound(round, Some(c));
      assert text[..6] == "Round ";
    }
  }

  /** For a named count the label depends on the count alone, and different named counts get
      different labels. */
  lemma NamedCountsLabelByCount(r1: int, r2: int, c1: int, c2: int)
    requires r1 != 0 && r2 != 0 && NamedCount(c1) && NamedCount(c2)
    ensures LabelForRound(r1, Some(c1)) == LabelForRound(r2, Some(c2)) <==> c1 == c2
  {
  }

  /** A round without a named count and past the first is called "Round n", and n can be read
      back from its label, so such rounds are told apart. */
  lemma NumberedLabelNamesRound(round: int, count: Option<int>)
    requires round >= 2
    requires if count.Some? && count.value != 0 then !NamedCount(count.value) else round > 5
    ensures var text := LabelForRound(round, count);
      text[..6] == "Round " && text[6..] == IntToString(round)
      && AllDigits(text[6..]) && ParseInt(text[6..]) == round
  {
    var text := LabelForRound(round, count);
    assert text == "Round " + IntToString(round);
    assert text[6..] == IntToString(round);
    NatToStringRoundTrip(round);
  }

  function MatchesInRound(playersLeft: nat): nat {
    playersLeft / 2
  }

  /** Without a count, rounds 2 to 5 get the names a 32-player bracket would give them by
      count: round r has 32 / 2^r matches. */
  lemma StaticNamesFollowThirtyTwoPlayerBracket(round: int)
    requires 2 <= round <= 5
    ensures LabelForRound(round, None)
            == LabelForRound(round, Some(MatchesInRound(if round == 2 then 16 else if round == 3 then 8
                                                        else if round == 4 then 4 else 2)))
  {
  }

  // ---------------------------------------------------------------------------------------
  // Bracket layout

  /** A match as the bracket layout holds it: its id, players, match number, and the display
      fields the layout fills in (its position in the round and its link to the next round). */
  datatype BracketMatch = BracketMatch(id: int, player1: Option<PlayerId>, player2: Option<PlayerId>,
                                       matchNumber: Option<int>, displayIndex: int,
                                       nextRoundNumber: Option<int>, nextDisplayIndex: Option<int>)

  datatype BracketRound = BracketRound(roundNumber: int, roundLabel: string, matches: seq<BracketMatch>,
                                       matchCount: int)

  /** Python's `x or d` for an optional number: None and 0 give way to the default. */
  function NumberOr(x: Option<int>, d: int): int {
    if x.Some? && x.value != 0 then x.value else d
  }

  /** Play-ins sort by descending match number (none counting as 0), then by id. */
  predicate PlayInOrder(a: BracketMatch, b: BracketMatch) {
    var ka, kb := 0 - NumberOr(a.matchNumber, 0), 0 - NumberOr(b.matchNumber, 0);
    ka < kb || (ka == kb && a.id <= b.id)
  }

  /** Other rounds sort by match number, the id standing in when there is none. */
  predicate SlotOrder(a: BracketMatch, b: BracketMatch) {
    NumberOr(a.matchNumber, a.id) <= NumberOr(b.matchNumber, b.id)
  }

  predicate ByRoundNumber(a: BracketRound, b: BracketRound) {
    a.roundNumber <= b.roundNumber
  }

  lemma PlayInOrderIsPreorder()
    ensures TotalPreorder(PlayInOrder)
  {
  }

  lemma SlotOrderIsPreorder()
    ensures TotalPreorder(SlotOrder)
  {
  }

  lemma RoundOrderIsPreorder()
    ensures TotalPreorder(ByRoundNumber)
  {
  }

  /** The matches of a round in display order: a stable reordering of the round's matches. */
  function OrderedMatches(r: BracketRound): (s: seq<BracketMatch>)
    ensures multiset(s) == multiset(r.matches) && |s| == |r.matches|
    ensures r.roundNumber == 0 ==> forall i, j :: 0 <= i < j < |s| ==>
              NumberOr(s[i].matchNumber, 0) >= NumberOr(s[j].matchNumber, 0)
    ensures r.roundNumber == 0 ==> forall i, j :: 0 <= i < j < |s| ==>
              NumberOr(s[i].matchNumber, 0) == NumberOr(s[j].matchNumber, 0) ==> s[i].id <= s[j].id
    ensures r.roundNumber != 0 ==> forall i, j :: 0 <= i < j < |s| ==>
              NumberOr(s[i].matchNumber, s[i].id) <= NumberOr(s[j].matchNumber, s[j].id)
  {
    PlayInOrderIsPreorder();
    SlotOrderIsPreorder();
    var s := if r.roundNumber == 0 then SortBy(r.matches, PlayInOrder) else SortBy(r.matches, SlotOrder);
    assert r.roundNumber == 0 ==> SortedBy(s, PlayInOrder);
    assert r.roundNumber != 0 ==> SortedBy(s, SlotOrder);
    s
  }

  /** Matches of a later round that share a sort key keep the order they came in. */
  lemma OrderedMatchesStable(r: BracketRound, y: BracketMatch)
    requires r.roundNumber != 0
    ensures EquivalentTo(OrderedMatches(r), SlotOrder, y) == EquivalentTo(r.matches, SlotOrder, y)
  {
    SlotOrderIsPreorder();
    SortByStable(r.matches, SlotOrder, y);
  }

  /** The display index of a match: its 1-based position after ordering. */
  function Numbered(s: seq<BracketMatch>): (n: seq<BracketMatch>)
    ensures |n| == |s| && forall i :: 0 <= i < |n| ==> n[i].displayIndex == i + 1
  {
    seq(|s|, i requires 0 <= i < |s| => s[i].(displayIndex := i + 1))
  }

  /** _normalize_round_matches: the round's matches in display order, numbered from 1, and the
      round's match count. */
  function Normalized(r: BracketRound): (n: BracketRound)
    ensures n.roundNumber == r.roundNumber && n.roundLabel == r.roundLabel
    ensures |n.matches| == n.matchCount == |r.matches|
  {
    r.(matches := Numbered(OrderedMatches(r)), matchCount := |r.matches|)
  }

  /** A match with its display index forgotten, to compare rows across renumbering. */
  function Unnumbered(s: seq<BracketMatch>): (u: seq<BracketMatch>)
    ensures |u| == |s| && forall i :: 0 <= i < |s| ==> u[i].displayIndex == 0
  {
    seq(|s|, i requires 0 <= i < |s| => s[i].(displayIndex := 0))
  }

  lemma {:induction false} UnnumberedSplit(a: seq<BracketMatch>, b: seq<BracketMatch>)
    ensures Unnumbered(a + b) == Unnumbered(a) + Unnumbered(b)
  {
  }

  lemma {:induction false} UnnumberedPermutation(a: seq<BracketMatch>, b: seq<BracketMatch>)
    requires multiset(a) == multiset(b)
    ensures multiset(Unnumbered(a)) == multiset(Unnumbered(b))
    decreases |a|
  {
    if a == [] {
      assert |b| == |multiset(b)| == 0;
    } else {
      var x := a[0];
      assert x in multiset(b);
      var j :| 0 <= j < |b| && b[j] == x;
      var rest := b[..j] + b[j + 1..];
      assert b == b[..j] + [x] + b[j + 1..];
      assert a == [x] + a[1..];
      assert multiset(b) == multiset(b[..j]) + multiset{x} + multiset(b[j + 1..]);
      assert multiset(rest) == multiset(b[..j]) + multiset(b[j + 1..]);
      assert multiset(a) == multiset{x} + multiset(a[1..]);
      assert multiset(a[1..]) == multiset(a) - multiset{x};
      assert multiset(rest) == multiset(b) - multiset{x};
      UnnumberedPermutation(a[1..], rest);
      UnnumberedSplit([x], a[1..]);
      UnnumberedSplit(b[..j] + [x], b[j + 1..]);
      UnnumberedSplit(b[..j], [x]);
      UnnumberedSplit(b[..j], b[j + 1..]);
    }
  }

  /** Normalizing a round only reorders its matches and renumbers them 1, 2, ...: apart from
      the display index the rows are exactly the round's rows. */
  lemma NormalizedRenumbersSameRows(r: BracketRound)
    ensures var n := Normalized(r);
      && (forall i :: 0 <= i < |n.matches| ==> n.matches[i].displayIndex == i + 1)
      && multiset(Unnumbered(n.matches)) == multiset(Unnumbered(r.matches))
  {
    var s := OrderedMatches(r);
    assert Unnumbered(Numbered(s)) == Unnumbered(s);
    UnnumberedPermutation(s, r.matches);
  }

  /** Each displayed match is one of the round's matches with its display index set. */
  lemma NormalizedMatchFromRound(r: BracketRound, j: int)
    requires 0 <= j < |r.matches|
    ensures exists k :: 0 <= k < |r.matches| && Normalized(r).matches[j] == r.matches[k].(displayIndex := j + 1)
  {
    var s := OrderedMatches(r);
    assert s[j] in multiset(r.matches);
    var k :| 0 <= k < |r.matches| && r.matches[k] == s[j];
    assert Normalized(r).matches[j] == r.matches[k].(displayIndex := j + 1);
  }

  /** _compute_next_display_index: the slot of the next round a match's winner moves into. A
      play-in with seed s (its match number, else its display index) goes to the slot holding s
      in a bracket of twice the next round's matches; any other match with display index d
      goes to slot (d+1)/2. No slot is given past the last round or beyond the next round. */
  function NextDisplayIndex(round: BracketRound, next: Option<BracketRound>, m: BracketMatch)
    : (k: Option<int>)
    ensures k.Some? ==> next.Some? && k.value <= next.value.matchCount
    ensures k.Some? && round.roundNumber != 0 ==> k.value != 0
  {
    if next.None? then None
    else if round.roundNumber == 0 then
      var size := if next.value.matchCount * 2 > 0 then next.value.matchCount * 2 else 0;
      var seed := NumberOr(m.matchNumber, m.displayIndex);
      if size == 0 || seed == 0 then None
      else
        var target := if seed <= size / 2 then seed else size + 1 - seed;
        if target <= next.value.matchCount then Some(target) else None
    else
      var target := (m.displayIndex + 1) / 2;
      if target != 0 && target <= next.value.matchCount then Some(target) else None
  }

  /** A play-in for seed s of a bracket of 2c goes to the one slot t of the next round's c
      that holds seed s as its first seed t or its second seed 2c+1-t. */
  lemma PlayInConnector(round: BracketRound, next: BracketRound, m: BracketMatch, t: int)
    requires round.roundNumber == 0 && next.matchCount >= 1
    requires 1 <= NumberOr(m.matchNumber, m.displayIndex) <= 2 * next.matchCount
    ensures var s := NumberOr(m.matchNumber, m.displayIndex);
      NextDisplayIndex(round, Some(next), m) == Some(t)
      <==> 1 <= t <= next.matchCount && (t == s || 2 * next.matchCount + 1 - t == s)
  {
  }

  /** Past the play-ins, slot t of the next round receives exactly the matches displayed at
      2t-1 and 2t, as long as the next round has slot t. */
  lemma ConnectorPairsNeighbours(round: BracketRound, next: BracketRound, m: BracketMatch, t: int)
    requires round.roundNumber != 0 && m.displayIndex >= 1
    ensures NextDisplayIndex(round, Some(next), m) == Some(t)
            <==> 1 <= t <= next.matchCount && (m.displayIndex == 2 * t - 1 || m.displayIndex == 2 * t)
  {
  }

  /** The winner of each play-in of a cut field is linked to the round-1 slot whose open seat
      is the play-in's target seed. */
  lemma PlayInWinnerLinkedToOpenSeat(seeds: seq<PlayerId>, i: int, round: BracketRound,
                                     next: BracketRound, m: BracketMatch)
    requires BracketPlan(seeds).WithPlayIns?
    requires 0 <= i < |BracketPlan(seeds).playIns|
    requires round.roundNumber == 0 && next.matchCount == |BracketPlan(seeds).roundOne|
    requires m.matchNumber == Some(BracketPlan(seeds).playIns[i].targetSeed)
    ensures var p := BracketPlan(seeds);
      var g := p.playIns[i];
      NextDisplayIndex(round, Some(next), m).Some?
      && var k := NextDisplayIndex(round, Some(next), m).value;
      1 <= k <= |p.roundOne|
      && var slot := p.roundOne[k - 1];
      ((slot.seed1 == g.targetSeed && slot.player1.None?) || (slot.seed2 == g.targetSeed && slot.player2.None?))
  {
    var p := BracketPlan(seeds);
    PlanCounts(seeds);
    PlayInTargets(seeds);
    var g := p.playIns[i];
    assert g.targetSeed == p.target - i;
    var c := next.matchCount;
    assert 2 * c == p.target;
    var k := if g.targetSeed <= c then g.targetSeed else p.target + 1 - g.targetSeed;
    PlayInConnector(round, next, m, k);
    EmptySlotsArePlayInTargets(seeds, k);
    var slot := p.roundOne[k - 1];
    if k == g.targetSeed {
      assert slot.player1.None?;
    } else {
      assert slot.seed2 == g.targetSeed;
      assert p.playIns[i].targetSeed == slot.seed2;
    }
  }

  /** The link of one match: the next round's number and the slot its winner moves into. */
  function LinkMatch(round: BracketRound, next: Option<BracketRound>, m: BracketMatch): BracketMatch {
    m.(nextRoundNumber := if next.Some? then Some(next.value.roundNumber) else None,
       nextDisplayIndex := NextDisplayIndex(round, next, m))
  }

  function LinkedRound(round: BracketRound, next: Option<BracketRound>): (l: BracketRound)
    ensures l.roundNumber == round.roundNumber && l.roundLabel == round.roundLabel
    ensures l.matchCount == round.matchCount && |l.matches| == |round.matches|
  {
    round.(matches := seq(|round.matches|, i requires 0 <= i < |round.matches| =>
                          LinkMatch(round, next, round.matches[i])))
  }

  function NextOf(rounds: seq<BracketRound>, i: int): Option<BracketRound>
    requires 0 <= i < |rounds|
  {
    if i + 1 < |rounds| then Some(rounds[i + 1]) else None
  }

  /** _link_rounds: every match of every round linked to the round after it. */
  function LinkedRounds(rounds: seq<BracketRound>): (l: seq<BracketRound>)
    ensures |l| == |rounds|
  {
    seq(|rounds|, i requires 0 <= i < |rounds| => LinkedRound(rounds[i], NextOf(rounds, i)))
  }

  function NormalizedRounds(rounds: seq<BracketRound>): (n: seq<BracketRound>)
    ensures |n| == |rounds|
  {
    seq(|rounds|, i requires 0 <= i < |rounds| => Normalized(rounds[i]))
  }

  /** The rounds stably sorted by round number. */
  function RoundsInOrder(rounds: seq<BracketRound>): (s: seq<BracketRound>)
    ensures multiset(s) == multiset(rounds) && |s| == |rounds|
    ensures forall i, j :: 0 <= i < j < |s| ==> s[i].roundNumber <= s[j].roundNumber
  {
    RoundOrderIsPreorder();
    var s := SortBy(rounds, ByRoundNumber);
    assert SortedBy(s, ByRoundNumber);
    s
  }

  /** Rounds that share a round number keep the order they came in. */
  lemma RoundsInOrderStable(rounds: seq<BracketRound>, y: BracketRound)
    ensures EquivalentTo(RoundsInOrder(rounds), ByRoundNumber, y) == EquivalentTo(rounds, ByRoundNumber, y)
  {
    RoundOrderIsPreorder();
    SortByStable(rounds, ByRoundNumber, y);
  }

  /** finalize_bracket_rounds: the rounds in ascending (stable) round order, each normalized,
      then linked. */
  function Finalized(rounds: seq<BracketRound>): (f: seq<BracketRound>)
    ensures |f| == |rounds|
    ensures forall i, j :: 0 <= i < j < |f| ==> f[i].roundNumber <= f[j].roundNumber
  {
    if rounds == [] then []
    else LinkedRounds(NormalizedRounds(RoundsInOrder(rounds)))
  }

  /** In a finalized layout every match carries the number of the round after its own (none in
      the last round) and its 1-based position, and only matches before the last round get a
      slot to move into. */
  lemma FinalizedLinksFollowingRound(rounds: seq<BracketRound>, i: int, j: int)
    requires 0 <= i < |rounds|
    requires 0 <= j < |Finalized(rounds)[i].matches|
    ensures var f := Finalized(rounds);
      var m := f[i].matches[j];
      && m.displayIndex == j + 1
      && |f[i].matches| == f[i].matchCount
      && (i + 1 < |f| ==> m.nextRoundNumber == Some(f[i + 1].roundNumber))
      && (i + 1 == |f| ==> m.nextRoundNumber.None? && m.nextDisplayIndex.None?)
  {
  }

  method NormalizeRoundMatches(r: BracketRound) returns (n: BracketRound)
    ensures n == Normalized(r)
  {
    var ordered := OrderedMatches(r);
    var numbered: seq<BracketMatch> := [];
    var idx := 0;
    while idx < |ordered|
      invariant 0 <= idx <= |ordered| && |numbered| == idx
      invariant forall k :: 0 <= k < idx ==> numbered[k] == ordered[k].(displayIndex := k + 1)
    {
      numbered := numbered + [ordered[idx].(displayIndex := idx + 1)];
      idx := idx + 1;
    }
    n := r.(matches := numbered, matchCount := |numbered|);
  }

  method LinkRound(round: BracketRound, next: Option<BracketRound>) returns (l: BracketRound)
    ensures l == LinkedRound(round, next)
  {
    var linked: seq<BracketMatch> := [];
    var idx := 0;
    while idx < |round.matches|
      invariant 0 <= idx <= |round.matches| && |linked| == idx
      invariant forall k :: 0 <= k < idx ==> linked[k] == LinkMatch(round, next, round.matches[k])
    {
      var m := round.matches[idx];
      var nextNumber := if next.Some? then Some(next.value.roundNumber) else None;
      linked := linked + [m.(nextRoundNumber := nextNumber,
                             nextDisplayIndex := NextDisplayIndex(round, next, m))];
      idx := idx + 1;
    }
    l := round.(matches := linked);
  }

  method LinkRounds(rounds: seq<BracketRound>) returns (linked: seq<BracketRound>)
    ensures linked == LinkedRounds(rounds)
  {
    linked := [];
    var idx := 0;
    while idx < |rounds|
      invariant 0 <= idx <= |rounds| && |linked| == idx
      invariant forall k :: 0 <= k < idx ==> linked[k] == LinkedRound(rounds[k], NextOf(rounds, k))
    {
      var next := if idx + 1 < |rounds| then Some(rounds[idx + 1]) else None;
      var l := LinkRound(rounds[idx], next);
      linked := linked + [l];
      idx := idx + 1;
    }
  }

  method FinalizeBracketRounds(rounds: seq<BracketRound>) returns (f: seq<BracketRound>)
    ensures f == Finalized(rounds)
  {
    if rounds == [] {
      return [];
    }
    var sorted := RoundsInOrder(rounds);
    var normalized: seq<BracketRound> := [];
    var idx := 0;
    while idx < |sorted|
      invariant 0 <= idx <= |sorted| && |normalized| == idx
      invariant forall k :: 0 <= k < idx ==> normalized[k] == Normalized(sorted[k])
    {
      var n := NormalizeRoundMatches(sorted[idx]);
      normalized := normalized + [n];
      idx := idx + 1;
    }
    assert normalized == NormalizedRounds(sorted);
    f := LinkRounds(normalized);
  }

  // ---------------------------------------------------------------------------------------
  // Playoff preview

  /** A preview match: not yet played, numbered by its position or by its target seed. */
  function PreviewMatch(id: int, p1: Option<PlayerId>, p2: Option<PlayerId>, matchNumber: int): BracketMatch {
    BracketMatch(id, p1, p2, Some(matchNumber), 0, None, None)
  }

  function PairMatches(pairs: seq<(PlayerId, PlayerId)>): (ms: seq<BracketMatch>)
    ensures |ms| == |pairs|
  {
    seq(|pairs|, i requires 0 <= i < |pairs| => PreviewMatch(i, Some(pairs[i].0), Some(pairs[i].1), i + 1))
  }

  function PlayInMatches(playIns: seq<PlayIn>): (ms: seq<BracketMatch>)
    ensures |ms| == |playIns|
    ensures forall i :: 0 <= i < |ms| ==> ms[i].matchNumber == Some(playIns[i].targetSeed)
  {
    seq(|playIns|, i requires 0 <= i < |playIns| =>
      PreviewMatch(i, Some(playIns[i].player1), Some(playIns[i].player2), playIns[i].targetSeed))
  }

  function RoundOneMatches(slots: seq<RoundOneSlot>): (ms: seq<BracketMatch>)
    ensures |ms| == |slots|
  {
    seq(|slots|, i requires 0 <= i < |slots| =>
      PreviewMatch(i, slots[i].player1, slots[i].player2, slots[i].matchNumber))
  }

  function PlaceholderRound(number: int, count: nat): (r: BracketRound)
    ensures |r.matches| == count
  {
    BracketRound(number, LabelForRound(number, Some(count)),
                 seq(count, i requires 0 <= i < count => PreviewMatch(i, None, None, i + 1)), 0)
  }

  /** The empty rounds after round 1: each has half the matches of the one before, down to
      the final. */
  function Placeholders(teams: int, number: int): seq<BracketRound>
    decreases teams
  {
    if teams > 1 then [PlaceholderRound(number, teams / 2)] + Placeholders(teams / 2, number + 1)
    else []
  }

  /** Round 1 of a power-of-two field: the seeded pairs. */
  function DirectOpening(pairs: seq<(PlayerId, PlayerId)>): seq<BracketRound> {
    [BracketRound(1, LabelForRound(1, Some(|pairs|)), PairMatches(pairs), 0)]
  }

  /** A cut field: the play-ins as round 0 (when there are any), then round 1 with the bye
      seeds placed. */
  function CutOpening(target: int, playIns: seq<PlayIn>, roundOne: seq<RoundOneSlot>): seq<BracketRound> {
    (if playIns != [] then [BracketRound(0, LabelForRound(0, Some(|playIns|)), PlayInMatches(playIns), 0)]
     else [])
    + [BracketRound(1, LabelForRound(1, Some(target / 2)), RoundOneMatches(roundOne), 0)]
  }

  /** The rounds of the preview that hold players, and the match count of round 1; none for
      fewer than two players. */
  function OpeningRounds(seeds: seq<PlayerId>): (res: (seq<BracketRound>, int)) {
    match BracketPlan(seeds)
    case NoPlayoffs => ([], 0)
    case Direct(pairs) => (DirectOpening(pairs), |pairs|)
    case WithPlayIns(target, _, playIns, roundOne) => (CutOpening(target, playIns, roundOne), target / 2)
  }

  /** The rounds build_playoff_preview lays out before finalizing: the opening rounds, then the
      empty later rounds. */
  function PreviewRounds(seeds: seq<PlayerId>): seq<BracketRound> {
    var (opening, teams) := OpeningRounds(seeds);
    opening + Placeholders(teams, 2)
  }

  function Preview(seeds: seq<PlayerId>): seq<BracketRound> {
    Finalized(PreviewRounds(seeds))
  }

  lemma {:induction false} PlaceholdersHalve(teams: int, number: int)
    requires IsPowerOfTwo(teams)
    ensures var p := Placeholders(teams, number);
      && (p == [] <==> teams == 1)
      && (forall i :: 0 <= i < |p| ==> p[i].roundNumber == number + i)
      && (p != [] ==> 2 * |p[0].matches| == teams)
      && (forall i :: 0 <= i < |p| - 1 ==> |p[i].matches| == 2 * |p[i + 1].matches|)
      && (p != [] && number >= 1 ==> |p[|p| - 1].matches| == 1 && p[|p| - 1].roundLabel == "Finals")
    decreases teams
  {
    if teams > 1 {
      var half := teams / 2;
      PlaceholdersHalve(half, number + 1);
      var p := Placeholders(teams, number);
      var rest := Placeholders(half, number + 1);
      assert p == [PlaceholderRound(number, half)] + rest;
      if rest == [] {
        assert half == 1;
      }
    }
  }

  predicate Halving(rounds: seq<BracketRound>) {
    forall i :: 0 <= i < |rounds| - 1 && rounds[i].roundNumber >= 1 ==>
      |rounds[i].matches| == 2 * |rounds[i + 1].matches|
  }

  predicate Consecutive(rounds: seq<BracketRound>) {
    forall i :: 0 <= i < |rounds| ==> rounds[i].roundNumber == rounds[0].roundNumber + i
  }

  predicate EndsInFinal(rounds: seq<BracketRound>) {
    |rounds| >= 1
    && var last := rounds[|rounds| - 1];
    |last.matches| == 1 && last.roundNumber >= 1 && last.roundLabel == "Finals"
  }

  /** Round 1 of a power-of-two number of matches followed by its placeholders. */
  lemma MainRoundsShape(first: BracketRound, k: int)
    requires IsPowerOfTwo(k) && first.roundNumber == 1 && |first.matches| == k
    requires first.roundLabel == LabelForRound(1, Some(k))
    ensures var R := [first] + Placeholders(k, 2); Consecutive(R) && Halving(R) && EndsInFinal(R)
  {
    PlaceholdersHalve(k, 2);
    var rest := Placeholders(k, 2);
    var R := [first] + rest;
    if rest == [] {
      assert k == 1;
    }
    forall i | 0 <= i < |R| ensures R[i].roundNumber == 1 + i {
      if i > 0 { assert R[i] == rest[i - 1]; }
    }
    forall i | 0 <= i < |R| - 1 && R[i].roundNumber >= 1 ensures |R[i].matches| == 2 * |R[i + 1].matches| {
      assert R[i + 1] == rest[i];
      if i > 0 { assert R[i] == rest[i - 1]; }
    }
  }

  /** The play-in round in front of the main rounds keeps their shape. */
  lemma PlayInsBeforeMainRounds(zero: BracketRound, main: seq<BracketRound>)
    requires zero.roundNumber == 0 && |main| >= 1 && main[0].roundNumber == 1
    requires Consecutive(main) && Halving(main) && EndsInFinal(main)
    ensures var R := [zero] + main; Consecutive(R) && Halving(R) && EndsInFinal(R)
  {
    var R := [zero] + main;
    forall i | 0 <= i < |R| ensures R[i].roundNumber == i {
      if i > 0 { assert R[i] == main[i - 1]; }
    }
    forall i | 0 <= i < |R| - 1 && R[i].roundNumber >= 1 ensures |R[i].matches| == 2 * |R[i + 1].matches| {
      assert R[i] == main[i - 1] && R[i + 1] == main[i];
    }
  }

  lemma DirectShape(pairs: seq<(PlayerId, PlayerId)>)
    requires IsPowerOfTwo(|pairs|)
    ensures var R := DirectOpening(pairs) + Placeholders(|pairs|, 2);
      R[0].roundNumber == 1 && Consecutive(R) && Halving(R) && EndsInFinal(R)
  {
    MainRoundsShape(DirectOpening(pairs)[0], |pairs|);
  }

  lemma CutShape(target: int, playIns: seq<PlayIn>, roundOne: seq<RoundOneSlot>)
    requires IsPowerOfTwo(target) && target >= 2 && playIns != [] && |roundOne| == target / 2
    ensures var R := CutOpening(target, playIns, roundOne) + Placeholders(target / 2, 2);
      && |R| >= 2 && R[0].roundNumber == 0 && Consecutive(R) && Halving(R) && EndsInFinal(R)
      && R[0].matches == PlayInMatches(playIns) && |R[1].matches| == |roundOne|
  {
    var opening := CutOpening(target, playIns, roundOne);
    var main := [opening[1]] + Placeholders(target / 2, 2);
    MainRoundsShape(opening[1], target / 2);
    PlayInsBeforeMainRounds(opening[0], main);
    assert opening + Placeholders(target / 2, 2) == [opening[0]] + main;
  }

  /** The shape of the preview: consecutive round numbers from 1 (from 0 with play-ins), each
      round past the play-ins with half the matches of the one before, ending in a one-match
      round named the final; the play-ins precede round 1's target/2 matches. */
  lemma PreviewShape(seeds: seq<PlayerId>)
    requires |seeds| >= 2
    ensures var R := PreviewRounds(seeds);
      && |R| >= 1
      && R[0].roundNumber == (if IsPowerOfTwo(|seeds|) then 1 else 0)
      && Consecutive(R) && Halving(R) && EndsInFinal(R)
      && (R[0].roundNumber == 0 ==>
            |R| >= 2 && R[0].matches == PlayInMatches(BracketPlan(seeds).playIns)
            && |R[1].matches| == |BracketPlan(seeds).roundOne|)
  {
    var p := BracketPlan(seeds);
    if p.Direct? {
      DirectShape(p.pairs);
    } else {
      PlanCounts(seeds);
      CutShape(p.target, p.playIns, p.roundOne);
    }
  }

  /** The preview's rounds come in round order already, so finalizing only normalizes and
      links them. */
  lemma PreviewKeepsRoundOrder(seeds: seq<PlayerId>)
    requires |seeds| >= 2
    ensures Preview(seeds) == LinkedRounds(NormalizedRounds(PreviewRounds(seeds)))
  {
    var R := PreviewRounds(seeds);
    PreviewShape(seeds);
    RoundOrderIsPreorder();
    assert SortedBy(R, ByRoundNumber);
    SortBySortedUnchanged(R, ByRoundNumber);
    assert RoundsInOrder(R) == R;
  }

  /** A match of a main round with twice the matches of the next is linked to a slot of it. */
  lemma MainMatchLinked(r: BracketRound, s: BracketRound, j: int)
    requires r.roundNumber != 0 && |r.matches| == 2 * |s.matches| && 0 <= j < |r.matches|
    ensures var k := NextDisplayIndex(Normalized(r), Some(Normalized(s)), Normalized(r).matches[j]);
      k.Some? && 1 <= k.value <= Normalized(s).matchCount
  {
    ConnectorPairsNeighbours(Normalized(r), Normalized(s), Normalized(r).matches[j], (j + 2) / 2);
  }

  /** A play-in whose seed lies in the bracket of the next round is linked to a slot of it. */
  lemma SeededPlayInLinked(r: BracketRound, s: BracketRound, j: int)
    requires r.roundNumber == 0 && 0 <= j < |r.matches|
    requires forall k :: 0 <= k < |r.matches| ==>
               r.matches[k].matchNumber.Some? && 1 <= r.matches[k].matchNumber.value <= 2 * |s.matches|
    ensures var k := NextDisplayIndex(Normalized(r), Some(Normalized(s)), Normalized(r).matches[j]);
      k.Some? && 1 <= k.value <= Normalized(s).matchCount
  {
    NormalizedMatchFromRound(r, j);
    var m := Normalized(r).matches[j];
    var k :| 0 <= k < |r.matches| && m == r.matches[k].(displayIndex := j + 1);
    var seed := m.matchNumber.value;
    var c := |s.matches|;
    PlayInConnector(Normalized(r), Normalized(s), m, if seed <= c then seed else 2 * c + 1 - seed);
  }

  /** A play-in of the preview is linked to a slot of round 1. */
  lemma PlayInMatchLinked(seeds: seq<PlayerId>, r: BracketRound, s: BracketRound, j: int)
    requires BracketPlan(seeds).WithPlayIns?
    requires r.roundNumber == 0 && r.matches == PlayInMatches(BracketPlan(seeds).playIns)
    requires |s.matches| == |BracketPlan(seeds).roundOne| && 0 <= j < |r.matches|
    ensures var k := NextDisplayIndex(Normalized(r), Some(Normalized(s)), Normalized(r).matches[j]);
      k.Some? && 1 <= k.value <= Normalized(s).matchCount
  {
    var p := BracketPlan(seeds);
    PlanCounts(seeds);
    PlayInTargets(seeds);
    forall k | 0 <= k < |r.matches|
      ensures r.matches[k].matchNumber.Some? && 1 <= r.matches[k].matchNumber.value <= 2 * |s.matches|
    {
      assert r.matches[k].matchNumber == Some(p.playIns[k].targetSeed);
    }
    SeededPlayInLinked(r, s, j);
  }

  /** Every match before the last round is linked to an existing slot of the round numbered
      one higher, and the last round is a single final with nowhere to go. */
  predicate LinksEveryMatch(f: seq<BracketRound>) {
    && (forall i, j :: 0 <= i < |f| - 1 && 0 <= j < |f[i].matches| ==>
          && f[i].matches[j].nextRoundNumber == Some(f[i].roundNumber + 1)
          && f[i].matches[j].nextDisplayIndex.Some?
          && 1 <= f[i].matches[j].nextDisplayIndex.value <= f[i + 1].matchCount)
    && (|f| >= 1 ==>
          EndsInFinal(f) && Unlinked(f[|f| - 1]))
  }

  predicate Unlinked(r: BracketRound) {
    forall j :: 0 <= j < |r.matches| ==> r.matches[j].nextDisplayIndex.None?
  }

  lemma LinkedPreviewMatch(seeds: seq<PlayerId>, i: int, j: int)
    requires |seeds| >= 2 && 0 <= i && 0 <= j
    ensures var g := LinkedRounds(NormalizedRounds(PreviewRounds(seeds)));
      i < |g| && j < |g[i].matches| ==>
      var m := g[i].matches[j];
      && (i + 1 < |g| ==> m.nextRoundNumber == Some(g[i].roundNumber + 1)
                          && m.nextDisplayIndex.Some?
                          && 1 <= m.nextDisplayIndex.value <= g[i + 1].matchCount)
      && (i + 1 == |g| ==> m.nextDisplayIndex.None?)
  {
    var R := PreviewRounds(seeds);
    PreviewShape(seeds);
    var N := NormalizedRounds(R);
    var g := LinkedRounds(N);
    if i < |g| && j < |g[i].matches| {
      var m := g[i].matches[j];
      assert m == LinkMatch(N[i], NextOf(N, i), N[i].matches[j]);
      if i + 1 < |g| {
        assert g[i + 1].matchCount == N[i + 1].matchCount;
        assert N[i + 1].roundNumber == R[i + 1].roundNumber == R[i].roundNumber + 1;
        if R[i].roundNumber == 0 {
          PlayInMatchLinked(seeds, R[0], R[1], j);
        } else {
          MainMatchLinked(R[i], R[i + 1], j);
        }
      }
    }
  }

  lemma LinkedPreviewConnects(seeds: seq<PlayerId>)
    requires |seeds| >= 2
    ensures LinksEveryMatch(LinkedRounds(NormalizedRounds(PreviewRounds(seeds))))
  {
    var R := PreviewRounds(seeds);
    PreviewShape(seeds);
    var g := LinkedRounds(NormalizedRounds(R));
    forall i, j | 0 <= i < |g| && 0 <= j < |g[i].matches|
      ensures i + 1 < |g| ==> g[i].matches[j].nextRoundNumber == Some(g[i].roundNumber + 1)
                              && g[i].matches[j].nextDisplayIndex.Some?
                              && 1 <= g[i].matches[j].nextDisplayIndex.value <= g[i + 1].matchCount
      ensures i + 1 == |g| ==> g[i].matches[j].nextDisplayIndex.None?
    {
      LinkedPreviewMatch(seeds, i, j);
    }
    assert g[|g| - 1].roundLabel == R[|R| - 1].roundLabel;
  }

  /** The preview has no rounds exactly when fewer than two players are ranked. */
  lemma PreviewEmptyIffTooFewPlayers(seeds: seq<PlayerId>)
    ensures Preview(seeds) == [] <==> |seeds| < 2
  {
    if |seeds| < 2 {
      assert OpeningRounds(seeds) == ([], 0);
    } else {
      PreviewShape(seeds);
    }
  }

  /** In the preview every match before the final is linked to an existing slot of the next
      round, and the bracket ends in a single final. */
  lemma PreviewLinksEveryMatch(seeds: seq<PlayerId>)
    ensures LinksEveryMatch(Preview(seeds))
  {
    PreviewEmptyIffTooFewPlayers(seeds);
    if |seeds| >= 2 {
      PreviewKeepsRoundOrder(seeds);
      LinkedPreviewConnects(seeds);
    }
  }

  method BuildDirectOpening(pairs: seq<(PlayerId, PlayerId)>) returns (entries: seq<BracketRound>)
    ensures entries == DirectOpening(pairs)
  {
    var ms: seq<BracketMatch> := [];
    var slot := 0;
    while slot < |pairs|
      invariant 0 <= slot <= |pairs| && |ms| == slot
      invariant forall k :: 0 <= k < slot ==> ms[k] == PairMatches(pairs)[k]
    {
      ms := ms + [PreviewMatch(slot, Some(pairs[slot].0), Some(pairs[slot].1), slot + 1)];
      slot := slot + 1;
    }
    assert ms == PairMatches(pairs);
    entries := [BracketRound(1, LabelForRound(1, Some(|pairs|)), ms, 0)];
  }

  method BuildCutOpening(target: int, playIns: seq<PlayIn>, roundOne: seq<RoundOneSlot>)
    returns (entries: seq<BracketRound>)
    ensures entries == CutOpening(target, playIns, roundOne)
  {
    entries := [];
    var zero: seq<BracketMatch> := [];
    var idx := 0;
    while idx < |playIns|
      invariant 0 <= idx <= |playIns| && |zero| == idx
      invariant forall k :: 0 <= k < idx ==> zero[k] == PlayInMatches(playIns)[k]
    {
      var g := playIns[idx];
      zero := zero + [PreviewMatch(idx, Some(g.player1), Some(g.player2), g.targetSeed)];
      idx := idx + 1;
    }
    assert zero == PlayInMatches(playIns);
    if zero != [] {
      entries := [BracketRound(0, LabelForRound(0, Some(|zero|)), zero, 0)];
    }
    var one: seq<BracketMatch> := [];
    idx := 0;
    while idx < |roundOne|
      invariant 0 <= idx <= |roundOne| && |one| == idx
      invariant forall k :: 0 <= k < idx ==> one[k] == RoundOneMatches(roundOne)[k]
    {
      var s := roundOne[idx];
      one := one + [PreviewMatch(idx, s.player1, s.player2, s.matchNumber)];
      idx := idx + 1;
    }
    assert one == RoundOneMatches(roundOne);
    entries := entries + [BracketRound(1, LabelForRound(1, Some(target / 2)), one, 0)];
  }

  method BuildPlaceholderRound(number: int, count: nat) returns (r: BracketRound)
    ensures r == PlaceholderRound(number, count)
  {
    var placeholders: seq<BracketMatch> := [];
    var i := 0;
    while i < count
      invariant 0 <= i <= count && |placeholders| == i
      invariant forall k :: 0 <= k < i ==> placeholders[k] == PreviewMatch(k, None, None, k + 1)
    {
      placeholders := placeholders + [PreviewMatch(i, None, None, i + 1)];
      i := i + 1;
    }
    r := BracketRound(number, LabelForRound(number, Some(count)), placeholders, 0);
  }

  /** The halving loop: while more than one match remains, add a round of half as many. */
  method AppendPlaceholderRounds(opening: seq<BracketRound>, firstCount: int) returns (entries: seq<BracketRound>)
    ensures entries == opening + Placeholders(firstCount, 2)
  {
    entries := opening;
    var teams := firstCount;
    var number := 2;
    while teams > 1
      invariant entries + Placeholders(teams, number) == opening + Placeholders(firstCount, 2)
      decreases teams
    {
      var round := BuildPlaceholderRound(number, teams / 2);
      assert Placeholders(teams, number) == [round] + Placeholders(teams / 2, number + 1);
      entries := entries + [round];
      teams := teams / 2;
      number := number + 1;
    }
  }

  method BuildPlayoffPreview(seeds: seq<PlayerId>) returns (rounds: seq<BracketRound>)
    ensures rounds == Preview(seeds)
  {
    var opening: seq<BracketRound> := [];
    var teams := 0;
    match BracketPlan(seeds) {
      case NoPlayoffs =>
      case Direct(pairs) =>
        opening := BuildDirectOpening(pairs);
        teams := |pairs|;
      case WithPlayIns(target, _, playIns, roundOne) =>
        opening := BuildCutOpening(target, playIns, roundOne);
        teams := target / 2;
    }
    var entries := AppendPlaceholderRounds(opening, teams);
    rounds := FinalizeBracketRounds(entries);
  }
}
