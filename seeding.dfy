/** Seeding the playoff field. A field whose size is a power of two plays seed k against seed
    n+1-k. Any other field is cut to the largest power of two `target` below it: the lowest
    seeds meet in play-in games (round 0), whose winners take the empty slots of round 1. */
module Seeding {
  import opened Wrappers
  import opened MatchRecord

  predicate IsPowerOfTwo(n: int)
    decreases n
  {
    n == 1 || (n > 1 && n % 2 == 0 && IsPowerOfTwo(n / 2))
  }

  /** `1 << (n.bit_length() - 1)`: the largest power of two not above n. */
  function LargestPowerOfTwo(n: int): (t: int)
    requires n >= 1
    ensures IsPowerOfTwo(t) && t <= n < 2 * t
  {
    if n == 1 then 1 else 2 * LargestPowerOfTwo(n / 2)
  }

  /** A power of two is its own largest power of two. */
  lemma {:induction false} LargestPowerOfPowerOfTwo(n: int)
    requires IsPowerOfTwo(n)
    ensures LargestPowerOfTwo(n) == n
    decreases n
  {
    if n > 1 { LargestPowerOfPowerOfTwo(n / 2); }
  }

  /** A play-in game: the better seed `targetSeed` (also its match number and the round-1 seed
      its winner takes) against a seed from the bottom of the field. */
  datatype PlayIn = PlayIn(targetSeed: int, player1: PlayerId, player2: PlayerId)

  /** A round-1 slot: seeds `seed1` and `seed2`, with a player present only for a bye seed. */
  datatype RoundOneSlot = RoundOneSlot(matchNumber: int, seed1: int, seed2: int,
                                       player1: Option<PlayerId>, player2: Option<PlayerId>)

  /** The play-ins in the order they are built: seed byes+1+i against seed n-i, zipped up to
      the shorter of the two seed ranges. */
  function PlayInsAscending(seeds: seq<PlayerId>, target: int, byes: int): (r: seq<PlayIn>)
    requires 0 <= byes && target <= |seeds|
    ensures |r| == if target - byes < |seeds| - target then (if target - byes < 0 then 0 else target - byes)
                   else |seeds| - target
  {
    var n := |seeds|;
    var count := if target - byes < n - target then (if target - byes < 0 then 0 else target - byes)
                 else n - target;
    seq(count, i requires 0 <= i < count => PlayIn(byes + 1 + i, seeds[byes + i], seeds[n - 1 - i]))
  }

  function Reverse<T>(s: seq<T>): (r: seq<T>)
    ensures |r| == |s| && forall i :: 0 <= i < |s| ==> r[i] == s[|s| - 1 - i]
  {
    seq(|s|, i requires 0 <= i < |s| => s[|s| - 1 - i])
  }

  /** generate_play_in_matches_metadata: no play-ins when the field is not above the target;
      otherwise the zipped play-ins sorted by descending target seed. */
  function PlayInMetadata(seeds: seq<PlayerId>, target: int, byes: int): (r: seq<PlayIn>)
    requires 0 <= byes && target <= |seeds|
    ensures |seeds| - target <= 0 ==> r == []
    ensures forall i, j :: 0 <= i < j < |r| ==> r[i].targetSeed > r[j].targetSeed
    ensures multiset(r) == multiset(PlayInsAscending(seeds, target, byes))
  {
    if |seeds| - target <= 0 then []
    else
      var asc := PlayInsAscending(seeds, target, byes);
      ReverseMultiset(asc);
      Reverse(asc)
  }

  lemma {:induction false} ReverseMultiset<T>(s: seq<T>)
    ensures multiset(Reverse(s)) == multiset(s)
  {
    if s != [] {
      var last := s[|s| - 1];
      ReverseMultiset(s[..|s| - 1]);
      assert Reverse(s) == [last] + Reverse(s[..|s| - 1]);
      assert s == s[..|s| - 1] + [last];
    }
  }

  /** Round 1 of a cut field: slot k (1-based) holds seeds k and target+1-k; a seed gets its
      player now only when it has a bye, otherwise the slot waits for a play-in winner. */
  function RoundOneSlots(seeds: seq<PlayerId>, target: int, byes: int): (r: seq<RoundOneSlot>)
    requires 0 <= byes <= |seeds| && target >= 0
    ensures |r| == target / 2
  {
    seq(target / 2, i requires 0 <= i < target / 2 =>
      var k := i + 1;
      RoundOneSlot(k, k, target + 1 - k,
                   if k <= byes then Some(seeds[k - 1]) else None,
                   if 1 <= target + 1 - k <= byes then Some(seeds[target - k]) else None))
  }

  /** create_first_round_matches: pair `slot` (0-based) plays seeds[slot] against seeds[-(slot+1)]. */
  function FirstRoundPairs(seeds: seq<PlayerId>): (r: seq<(PlayerId, PlayerId)>)
    ensures |r| == |seeds| / 2
  {
    seq(|seeds| / 2, i requires 0 <= i < |seeds| / 2 => (seeds[i], seeds[|seeds| - 1 - i]))
  }

  /** The shape create_playoff_bracket and build_playoff_preview both derive from the seeds. */
  datatype Plan =
    | NoPlayoffs
    | Direct(pairs: seq<(PlayerId, PlayerId)>)
    | WithPlayIns(target: int, byes: int, playIns: seq<PlayIn>, roundOne: seq<RoundOneSlot>)

  function BracketPlan(seeds: seq<PlayerId>): (p: Plan)
    ensures p.NoPlayoffs? <==> |seeds| < 2
    ensures p.Direct? <==> |seeds| >= 2 && IsPowerOfTwo(|seeds|)
  {
    var n := |seeds|;
    if n < 2 then NoPlayoffs
    else if IsPowerOfTwo(n) then Direct(FirstRoundPairs(seeds))
    else
      var target := LargestPowerOfTwo(n);
      var playIns := n - target;
      var byes := target - playIns;
      WithPlayIns(target, byes, PlayInMetadata(seeds, target, byes), RoundOneSlots(seeds, target, byes))
  }

  /** A power-of-two field: pair k (1-based) is seed k against seed n+1-k. */
  lemma DirectPairsSeeds(seeds: seq<PlayerId>, k: int)
    requires BracketPlan(seeds).Direct? && 1 <= k <= |seeds| / 2
    ensures BracketPlan(seeds).pairs[k - 1] == (seeds[k - 1], seeds[|seeds| + 1 - k - 1])
  {
  }

  /** The counts of a cut field: target is the largest power of two below n, every seed
      either has a bye or plays in, and each side of the zip has the play-in count. */
  lemma PlanCounts(seeds: seq<PlayerId>)
    requires BracketPlan(seeds).WithPlayIns?
    ensures var p := BracketPlan(seeds);
      && IsPowerOfTwo(p.target) && p.target < |seeds| < 2 * p.target
      && p.byes + 2 * |p.playIns| == |seeds|
      && 1 <= p.byes && p.target - p.byes == |p.playIns| == |seeds| - p.target
      && |p.roundOne| == p.target / 2 && p.target % 2 == 0
  {
  }

  /** Play-in i (counting from the top seed down) pairs seed byes+1+i with seed n-i, its match
      number is the better of the two seeds, and the list runs by descending target seed. */
  lemma PlayInPairing(seeds: seq<PlayerId>, i: int)
    requires BracketPlan(seeds).WithPlayIns?
    requires 0 <= i < |BracketPlan(seeds).playIns|
    ensures var p := BracketPlan(seeds);
      var g := p.playIns[|p.playIns| - 1 - i];
      && g.targetSeed == p.byes + 1 + i
      && g.player1 == seeds[p.byes + i] && g.player2 == seeds[|seeds| - 1 - i]
      && g.targetSeed < |seeds| - i
  {
    PlanCounts(seeds);
  }

  /** The target seeds of the play-ins are exactly byes+1..target, the i-th being target-i. */
  lemma PlayInTargets(seeds: seq<PlayerId>)
    requires BracketPlan(seeds).WithPlayIns?
    ensures var p := BracketPlan(seeds);
      forall i :: 0 <= i < |p.playIns| ==> p.playIns[i].targetSeed == p.target - i
  {
    PlanCounts(seeds);
  }

  /** The empty round-1 slots are exactly the play-in target seeds; a filled slot holds the
      player of its seed. */
  lemma EmptySlotsArePlayInTargets(seeds: seq<PlayerId>, k: int)
    requires BracketPlan(seeds).WithPlayIns?
    requires 1 <= k <= BracketPlan(seeds).target / 2
    ensures var p := BracketPlan(seeds);
      var slot := p.roundOne[k - 1];
      && slot.matchNumber == slot.seed1 == k && slot.seed2 == p.target + 1 - k
      && (slot.player1.None? <==> exists i :: 0 <= i < |p.playIns| && p.playIns[i].targetSeed == slot.seed1)
      && (slot.player2.None? <==> exists i :: 0 <= i < |p.playIns| && p.playIns[i].targetSeed == slot.seed2)
      && (slot.player1.Some? ==> slot.player1.value == seeds[k - 1])
      && (slot.player2.Some? ==> slot.player2.value == seeds[p.target - k])
  {
    var p := BracketPlan(seeds);
    PlanCounts(seeds);
    PlayInTargets(seeds);
    var slot := p.roundOne[k - 1];
    if slot.player1.None? { assert p.playIns[p.target - k].targetSeed == k; }
    if slot.player2.None? { assert p.playIns[k - 1].targetSeed == p.target + 1 - k; }
  }

  /** The round-1 slot whose seat waits for the winner of play-in i: the slot numbered by its
      target seed s (first seat) or by target+1-s (second seat). */
  lemma PlayInSeat(seeds: seq<PlayerId>, i: int) returns (k: int)
    requires BracketPlan(seeds).WithPlayIns?
    requires 0 <= i < |BracketPlan(seeds).playIns|
    ensures var p := BracketPlan(seeds); 1 <= k <= p.target / 2 && k <= |p.roundOne|
    ensures var p := BracketPlan(seeds); var slot := p.roundOne[k - 1]; var s := p.playIns[i].targetSeed;
      && slot.matchNumber == k
      && ((k == s && slot.player1.None?) || (k == p.target + 1 - s && slot.player2.None?))
  {
    var p := BracketPlan(seeds);
    PlanCounts(seeds);
    PlayInTargets(seeds);
    var s := p.target - i;
    k := if s <= p.target / 2 then s else p.target + 1 - s;
    EmptySlotsArePlayInTargets(seeds, k);
  }

  predicate SeatedInSlot(slot: RoundOneSlot, s: int, id: PlayerId) {
    (slot.seed1 == s && slot.player1 == Some(id)) || (slot.seed2 == s && slot.player2 == Some(id))
  }

  predicate SeatedInPlayIn(g: PlayIn, s: int, target: int, id: PlayerId) {
    (g.targetSeed == s && g.player1 == id) || (g.targetSeed == 2 * target + 1 - s && g.player2 == id)
  }

  /** Every seed is placed: a bye seed in the round-1 slot it names, any other seed in the
      play-in it heads or, below the target, in the play-in of seed 2*target+1-s. */
  lemma EverySeedPlaced(seeds: seq<PlayerId>, s: int)
    requires BracketPlan(seeds).WithPlayIns?
    requires 1 <= s <= |seeds|
    ensures var p := BracketPlan(seeds);
      s <= p.byes ==> exists k :: 0 <= k < |p.roundOne| && SeatedInSlot(p.roundOne[k], s, seeds[s - 1])
    ensures var p := BracketPlan(seeds);
      s > p.byes ==> exists i :: 0 <= i < |p.playIns| && SeatedInPlayIn(p.playIns[i], s, p.target, seeds[s - 1])
  {
    var p := BracketPlan(seeds);
    PlanCounts(seeds);
    var t := p.target;
    var c := |p.playIns|;
    if s <= p.byes {
      if s <= t / 2 { assert p.roundOne[s - 1].seed1 == s; }
      else { assert p.roundOne[t - s].seed2 == s; }
    } else if s <= t {
      PlayInPairing(seeds, s - p.byes - 1);
      assert p.playIns[c - 1 - (s - p.byes - 1)].targetSeed == s;
    } else {
      PlayInPairing(seeds, |seeds| - s);
      assert p.playIns[c - 1 - (|seeds| - s)].player2 == seeds[s - 1];
    }
  }

  /** One player past a power of two (3, 5, 9, 17, ... players) leaves a single play-in game. */
  lemma OnePastPowerOfTwoHasOnePlayIn(seeds: seq<PlayerId>)
    requires |seeds| >= 3 && IsPowerOfTwo(|seeds| - 1)
    ensures BracketPlan(seeds).WithPlayIns? && |BracketPlan(seeds).playIns| == 1
  {
    var n := |seeds|;
    LargestPowerOfPowerOfTwo(n - 1);
    assert !IsPowerOfTwo(n) by {
      NoPowerOfTwoBetween(n - 1, n);
    }
    assert LargestPowerOfTwo(n) == n - 1 by {
      LargestPowerOfTwoUnique(n, n - 1);
    }
    PlanCounts(seeds);
  }

  /** Between a power of two t and 2t there is no other power of two. */
  lemma {:induction false} NoPowerOfTwoBetween(t: int, m: int)
    requires IsPowerOfTwo(t) && t < m < 2 * t
    ensures !IsPowerOfTwo(m)
  {
    if m % 2 == 0 && m > 1 && t > 1 {
      NoPowerOfTwoBetween(t / 2, m / 2);
    }
  }

  /** The largest power of two not above n is the only power of two t with t <= n < 2t. */
  lemma LargestPowerOfTwoUnique(n: int, t: int)
    requires IsPowerOfTwo(t) && t <= n < 2 * t
    ensures LargestPowerOfTwo(n) == t
  {
    var l := LargestPowerOfTwo(n);
    if l < t {
      NoPowerOfTwoBetween(l, t);
    } else if l > t {
      NoPowerOfTwoBetween(t, l);
    }
  }

  /** When the byes fill exactly half of the round-1 slots (6, 12, 24, ... players), every
      round-1 slot starts as a bye holder waiting for a play-in winner: a player in the first
      seat and nobody in the second. */
  lemma HalfByesLeaveOpenSeconds(seeds: seq<PlayerId>)
    requires BracketPlan(seeds).WithPlayIns? && 2 * BracketPlan(seeds).byes == BracketPlan(seeds).target
    ensures forall slot :: slot in BracketPlan(seeds).roundOne ==> slot.player1.Some? && slot.player2.None?
    ensures |BracketPlan(seeds).roundOne| == BracketPlan(seeds).byes >= 1
  {
    PlanCounts(seeds);
  }
}
