/** The regular-season schedule: the circle method. The roster is padded with an empty slot
    (a bye) when odd; each week slot i plays slot n-1-i, then every slot but the first moves
    one place round. */
module RoundRobin {
  import opened Wrappers
  import opened MatchRecord

  /** A rotation slot: a player, or the padding `None` that stands for a bye. */
  type Slot = Option<PlayerId>
  type Pair = (Slot, Slot)

  /** A pair with the empty slot, if any, moved second. */
  function NormalizePair(a: Slot, b: Slot): (r: Pair)
    ensures r == (a, b) || r == (b, a)
    ensures r.0.None? ==> a.None? && b.None?
  {
    if a.None? && b.None? then (None, None)
    else if a.None? then (b, None)
    else if b.None? then (a, None)
    else (a, b)
  }

  /** Normalising keeps the two slots. */
  lemma NormalizePairKeepsSlots(a: Slot, b: Slot)
    ensures multiset{NormalizePair(a, b).0, NormalizePair(a, b).1} == multiset{a, b}
  {
  }

  /** The roster, padded with one empty slot when its size is odd. */
  function PrepareRotation(ids: seq<PlayerId>): (r: seq<Slot>)
    ensures |r| == |ids| + |ids| % 2 && |r| % 2 == 0
  {
    var roster := seq(|ids|, i requires 0 <= i < |ids| => Some(ids[i]));
    if |ids| % 2 != 0 then roster + [None] else roster
  }

  /** The roster keeps its order, and the padding goes last. */
  lemma PrepareRotationContents(ids: seq<PlayerId>)
    ensures forall i :: 0 <= i < |ids| ==> PrepareRotation(ids)[i] == Some(ids[i])
    ensures |ids| % 2 == 1 ==> PrepareRotation(ids)[|ids|] == None
  {
  }

  /** Slots i and n-1-i for i from `from` up to the middle, skipping a pair of two empty slots. */
  function CapturePairsFrom(rot: seq<Slot>, from: nat): seq<Pair>
    decreases |rot| - from
  {
    if 2 * from + 2 > |rot| then []
    else
      var a, b := rot[from], rot[|rot| - 1 - from];
      (if a.None? && b.None? then [] else [NormalizePair(a, b)]) + CapturePairsFrom(rot, from + 1)
  }

  function CapturePairs(rot: seq<Slot>): seq<Pair> {
    CapturePairsFrom(rot, 0)
  }

  /** The first slot stays; the last slot moves to second place and the rest shift right. */
  function RotatePlayers(rot: seq<Slot>): (r: seq<Slot>)
    ensures |r| == |rot|
    ensures |rot| > 0 ==> r[0] == rot[0]
  {
    if |rot| <= 2 then rot
    else
      var n := |rot|;
      [rot[0], rot[n - 1]] + rot[1..n - 1]
  }

  /** A turn only reorders the slots. */
  lemma RotatePlayersPermutes(rot: seq<Slot>)
    ensures multiset(RotatePlayers(rot)) == multiset(rot)
  {
    if |rot| > 2 {
      var n := |rot|;
      assert rot == [rot[0]] + rot[1..n - 1] + [rot[n - 1]];
    }
  }

  /** The last slot moves to second place and the others after the first shift one place on. */
  lemma RotatePlayersShifts(rot: seq<Slot>)
    requires |rot| > 2
    ensures RotatePlayers(rot)[1] == rot[|rot| - 1]
    ensures forall k :: 2 <= k < |rot| ==> RotatePlayers(rot)[k] == rot[k - 1]
  {
  }

  /** Drops any pair with two empty slots. */
  function CleanPairs(pairs: seq<Pair>): (r: seq<Pair>)
    ensures |r| <= |pairs|
  {
    if pairs == [] then []
    else
      var rest := CleanPairs(pairs[1..]);
      if pairs[0].0.Some? || pairs[0].1.Some? then [pairs[0]] + rest else rest
  }

  /** What is left holds a player in every pair; a schedule without an empty pair is kept whole. */
  lemma {:induction false} CleanPairsProper(pairs: seq<Pair>)
    ensures forall k :: 0 <= k < |CleanPairs(pairs)| ==> CleanPairs(pairs)[k] != (None, None)
    ensures (forall k :: 0 <= k < |pairs| ==> pairs[k].0.Some?) ==> CleanPairs(pairs) == pairs
  {
    if pairs != [] {
      CleanPairsProper(pairs[1..]);
      if forall k :: 0 <= k < |pairs| ==> pairs[k].0.Some? {
        assert forall k :: 0 <= k < |pairs[1..]| ==> pairs[1..][k].0.Some?;
        assert pairs == [pairs[0]] + pairs[1..];
      }
    }
  }

  /** The rotation after `k` weeks. */
  function Rotated(rot: seq<Slot>, k: nat): (r: seq<Slot>)
    ensures |r| == |rot|
    ensures |rot| > 0 ==> r[0] == rot[0]
  {
    if k == 0 then rot else RotatePlayers(Rotated(rot, k - 1))
  }

  lemma TurnPermutes(prev: seq<Slot>, orig: seq<Slot>)
    requires multiset(prev) == multiset(orig)
    ensures multiset(RotatePlayers(prev)) == multiset(orig)
  {
    RotatePlayersPermutes(prev);
  }

  /** Any number of turns only reorders the slots. */
  lemma {:induction false} RotatedPermutes(rot: seq<Slot>, k: nat)
    ensures multiset(Rotated(rot, k)) == multiset(rot)
  {
    if k > 0 {
      RotatedPermutes(rot, k - 1);
      TurnPermutes(Rotated(rot, k - 1), rot);
    }
  }

  lemma RotatedStep(rot: seq<Slot>, k: nat)
    ensures Rotated(rot, k + 1) == RotatePlayers(Rotated(rot, k))
  {
  }

  /** The pairs of week `w` (counting from 0). */
  function WeekPairs(ids: seq<PlayerId>, w: nat): seq<Pair> {
    CleanPairs(CapturePairs(Rotated(PrepareRotation(ids), w)))
  }

  function Flatten(pairs: seq<Pair>): (r: seq<Slot>)
    ensures |r| == 2 * |pairs|
  {
    if pairs == [] then [] else [pairs[0].0, pairs[0].1] + Flatten(pairs[1..])
  }

  /** How many pairs of a week a player sits in. */
  function Appearances(pairs: seq<Pair>, p: PlayerId): nat {
    multiset(Flatten(pairs))[Some(p)]
  }

  /** Pairs in which a player meets the empty slot. */
  function ByeCount(pairs: seq<Pair>): nat {
    if pairs == [] then 0 else (if pairs[0].1.None? then 1 else 0) + ByeCount(pairs[1..])
  }

  predicate DistinctIds(ids: seq<PlayerId>) {
    forall i, j :: 0 <= i < j < |ids| ==> ids[i] != ids[j]
  }

  lemma FlattenCons(p: Pair, rest: seq<Pair>)
    ensures multiset(Flatten([p] + rest)) == multiset{p.0, p.1} + multiset(Flatten(rest))
  {
    assert ([p] + rest)[1..] == rest;
    assert Flatten([p] + rest) == [p.0, p.1] + Flatten(rest);
  }

  /** The slots not yet paired once the first `from` pairs are taken. */
  function Middle(rot: seq<Slot>, from: nat): seq<Slot>
    requires 2 * from <= |rot|
  {
    rot[from..|rot| - from]
  }

  /** The middle segment splits into its two ends and the segment one step in. */
  lemma SegmentSplit(rot: seq<Slot>, from: nat)
    requires 2 * from + 2 <= |rot|
    ensures multiset(Middle(rot, from))
         == multiset{rot[from], rot[|rot| - 1 - from]} + multiset(Middle(rot, from + 1))
  {
    var n := |rot|;
    assert rot[from..n - from] == [rot[from]] + rot[from + 1..n - 1 - from] + [rot[n - 1 - from]];
  }

  lemma CaptureStep(rot: seq<Slot>, from: nat)
    requires 2 * from + 2 <= |rot|
    requires rot[from].Some? || rot[|rot| - 1 - from].Some?
    ensures CapturePairsFrom(rot, from)
         == [NormalizePair(rot[from], rot[|rot| - 1 - from])] + CapturePairsFrom(rot, from + 1)
  {
  }

  /** Captured pairs hold every slot of the middle segment once. */
  lemma {:induction false} CaptureFromCovers(rot: seq<Slot>, from: nat)
    requires |rot| % 2 == 0 && 2 * from <= |rot|
    requires multiset(Middle(rot, from))[None] <= 1
    ensures multiset(Flatten(CapturePairsFrom(rot, from))) == multiset(Middle(rot, from))
    decreases |rot| - from
  {
    var n := |rot|;
    if 2 * from + 2 <= n {
      var a, b := rot[from], rot[n - 1 - from];
      var p, rest := NormalizePair(a, b), CapturePairsFrom(rot, from + 1);
      var ends, inner := multiset{a, b}, multiset(Middle(rot, from + 1));
      SegmentSplit(rot, from);
      assert multiset(Middle(rot, from))[None] == ends[None] + inner[None];
      CaptureFromCovers(rot, from + 1);
      CaptureStep(rot, from);
      FlattenCons(p, rest);
      assert multiset{p.0, p.1} == ends by { NormalizePairKeepsSlots(a, b); }
      assert multiset(Flatten(CapturePairsFrom(rot, from))) == ends + inner;
    } else {
      assert Middle(rot, from) == [];
    }
  }

  /** A captured pair never has its empty slot first. */
  lemma {:induction false} CaptureFromPlayerFirst(rot: seq<Slot>, from: nat)
    ensures forall k :: 0 <= k < |CapturePairsFrom(rot, from)| ==> CapturePairsFrom(rot, from)[k].0.Some?
    decreases |rot| - from
  {
    if 2 * from + 2 <= |rot| {
      CaptureFromPlayerFirst(rot, from + 1);
      var a, b := rot[from], rot[|rot| - 1 - from];
      var rest := CapturePairsFrom(rot, from + 1);
      if a.Some? || b.Some? {
        CaptureStep(rot, from);
        var all := CapturePairsFrom(rot, from);
        assert all[0] == NormalizePair(a, b);
        forall k | 0 <= k < |all| ensures all[k].0.Some? {
          if k > 0 { assert all[k] == rest[k - 1]; }
        }
      } else {
        assert CapturePairsFrom(rot, from) == rest;
      }
    }
  }

  /** No rotation step ever leaves a pair with two empty slots, so cleaning changes nothing. */
  lemma WeekPairsCaptured(ids: seq<PlayerId>, w: nat)
    ensures WeekPairs(ids, w) == CapturePairs(Rotated(PrepareRotation(ids), w))
    ensures forall k :: 0 <= k < |WeekPairs(ids, w)| ==> WeekPairs(ids, w)[k].0.Some?
  {
    var rot := Rotated(PrepareRotation(ids), w);
    CaptureFromPlayerFirst(rot, 0);
    CleanPairsProper(CapturePairs(rot));
  }

  /** Each week's pairs hold every slot of the padded roster once. */
  lemma WeekPairsCover(ids: seq<PlayerId>, w: nat)
    ensures var rot := Rotated(PrepareRotation(ids), w);
      && WeekPairs(ids, w) == CapturePairs(rot)
      && multiset(Flatten(WeekPairs(ids, w))) == multiset(PrepareRotation(ids))
      && forall k :: 0 <= k < |WeekPairs(ids, w)| ==> WeekPairs(ids, w)[k].0.Some?
  {
    var prep := PrepareRotation(ids);
    var rot := Rotated(prep, w);
    RotatedPermutes(prep, w);
    assert Middle(rot, 0) == rot;
    NoneAtMostOnce(ids);
    CaptureFromCovers(rot, 0);
    WeekPairsCaptured(ids, w);
  }

  lemma NoneAtMostOnce(ids: seq<PlayerId>)
    ensures multiset(PrepareRotation(ids))[None] == |ids| % 2
  {
    var roster := seq(|ids|, i requires 0 <= i < |ids| => Some(ids[i]));
    assert None !in roster;
    if |ids| % 2 != 0 { assert PrepareRotation(ids) == roster + [None]; }
  }

  lemma {:induction false} ByeCountIsNoneCount(pairs: seq<Pair>)
    requires forall k :: 0 <= k < |pairs| ==> pairs[k].0.Some?
    ensures ByeCount(pairs) == multiset(Flatten(pairs))[None]
  {
    if pairs != [] {
      ByeCountIsNoneCount(pairs[1..]);
      assert Flatten(pairs) == [pairs[0].0, pairs[0].1] + Flatten(pairs[1..]);
    }
  }

  lemma {:induction false} PlayerCountInRoster(ids: seq<PlayerId>, p: PlayerId)
    requires DistinctIds(ids)
    ensures multiset(PrepareRotation(ids))[Some(p)] == if p in ids then 1 else 0
  {
    if ids != [] {
      var last := ids[|ids| - 1];
      var front := ids[..|ids| - 1];
      PlayerCountInRoster(front, p);
      var roster := seq(|ids|, i requires 0 <= i < |ids| => Some(ids[i]));
      var froster := seq(|front|, i requires 0 <= i < |front| => Some(front[i]));
      assert roster == froster + [Some(last)];
      assert multiset(PrepareRotation(ids))[Some(p)] == multiset(roster)[Some(p)];
      assert multiset(PrepareRotation(front))[Some(p)] == multiset(froster)[Some(p)];
      assert p in ids <==> p in front || p == last;
    }
  }

  /** Every week: each rostered player sits in exactly one pair, a player of the roster never
      stands second to an empty first slot, and an odd roster gives exactly one bye. */
  lemma WeekIsPerfectPairing(ids: seq<PlayerId>, w: nat)
    requires DistinctIds(ids)
    ensures forall p :: p in ids ==> Appearances(WeekPairs(ids, w), p) == 1
    ensures forall p: PlayerId :: p !in ids ==> Appearances(WeekPairs(ids, w), p) == 0
    ensures ByeCount(WeekPairs(ids, w)) == |ids| % 2
    ensures forall k :: 0 <= k < |WeekPairs(ids, w)| ==> WeekPairs(ids, w)[k].0.Some?
  {
    var week := WeekPairs(ids, w);
    var roster := multiset(PrepareRotation(ids));
    WeekPairsCover(ids, w);
    assert multiset(Flatten(week)) == roster;
    NoneAtMostOnce(ids);
    ByeCountIsNoneCount(week);
    forall p: PlayerId ensures Appearances(week, p) == if p in ids then 1 else 0 {
      PlayerCountInRoster(ids, p);
      assert Appearances(week, p) == roster[Some(p)];
    }
  }

  /** The pairs of `total` consecutive rotations, starting from `rotation`. */
  method CaptureRounds(rotation: seq<Slot>, total: nat) returns (rounds: seq<seq<Pair>>)
    ensures |rounds| == total
    ensures forall w :: 0 <= w < total ==> rounds[w] == CapturePairs(Rotated(rotation, w))
  {
    rounds := [];
    var current := rotation;
    var i := 0;
    while i < total
      invariant 0 <= i <= total
      invariant |rounds| == i && current == Rotated(rotation, i)
      invariant forall w :: 0 <= w < i ==> rounds[w] == CapturePairs(Rotated(rotation, w))
    {
      ghost var before := rounds;
      rounds := rounds + [CapturePairs(current)];
      forall w | 0 <= w < i + 1 ensures rounds[w] == CapturePairs(Rotated(rotation, w)) {
        if w < i { assert rounds[w] == before[w]; }
      }
      RotatedStep(rotation, i);
      current := RotatePlayers(current);
      i := i + 1;
    }
  }

  /** build_round_robin: runs the rotation for max(n - 1, limitWeeks) weeks and keeps the
      first limitWeeks of them. */
  method BuildRoundRobin(ids: seq<PlayerId>, limitWeeks: nat) returns (weeks: seq<seq<Pair>>)
    ensures |weeks| == limitWeeks
    ensures forall w :: 0 <= w < limitWeeks ==> weeks[w] == WeekPairs(ids, w)
  {
    var rotation := PrepareRotation(ids);
    var totalRounds := if |rotation| - 1 > limitWeeks then |rotation| - 1 else limitWeeks;
    var rounds := CaptureRounds(rotation, totalRounds);
    var trimmed := rounds[..limitWeeks];
    weeks := seq(|trimmed|, w requires 0 <= w < |trimmed| => CleanPairs(trimmed[w]));
  }

  /** The schedule promise, week by week, for a roster without repeated ids. */
  lemma ScheduleIsPerfectPairing(ids: seq<PlayerId>, limitWeeks: nat, weeks: seq<seq<Pair>>, w: nat)
    requires DistinctIds(ids)
    requires |weeks| == limitWeeks && forall v :: 0 <= v < limitWeeks ==> weeks[v] == WeekPairs(ids, v)
    requires w < limitWeeks
    ensures forall p :: p in ids ==> Appearances(weeks[w], p) == 1
    ensures ByeCount(weeks[w]) == |ids| % 2
    ensures forall k :: 0 <= k < |weeks[w]| ==> weeks[w][k] != (None, None)
  {
    WeekIsPerfectPairing(ids, w);
  }

  /** The rotation slot that lands at position p in week w of the first cycle. */
  function SlotAt(n: int, w: nat, p: int): int {
    if p == 0 then 0 else if p - w >= 1 then p - w else p - w + n - 1
  }

  /** One turn: position 1 takes the last slot, every later position its left neighbour. */
  lemma ShiftedFrom(prev: seq<Slot>, p: int)
    requires |prev| >= 2 && 1 <= p < |prev|
    ensures RotatePlayers(prev)[p] == prev[if p == 1 then |prev| - 1 else p - 1]
  {
    if |prev| > 2 { RotatePlayersShifts(prev); }
  }

  /** One turn moves each slot one position on, as SlotAt counts it. */
  lemma SlotStep(rot: seq<Slot>, prev: seq<Slot>, w: nat, p: int, q: int)
    requires |rot| >= 2 && |prev| == |rot| && 1 <= w <= |rot| - 1 && 1 <= p < |rot|
    requires q == if p == 1 then |rot| - 1 else p - 1
    requires prev[q] == rot[SlotAt(|rot|, w - 1, q)]
    ensures 1 <= SlotAt(|rot|, w, p) < |rot| && RotatePlayers(prev)[p] == rot[SlotAt(|rot|, w, p)]
  {
    ShiftedFrom(prev, p);
  }

  /** Where a slot sits during the first cycle: slot 0 stays put, and for w <= n-1 position
      p >= 1 holds the slot that started w places earlier, counted cyclically over 1..n-1. */
  lemma {:induction false} RotatedSlot(rot: seq<Slot>, w: nat, p: int)
    requires |rot| >= 2 && w <= |rot| - 1 && 1 <= p < |rot|
    ensures 1 <= SlotAt(|rot|, w, p) < |rot| && Rotated(rot, w)[p] == rot[SlotAt(|rot|, w, p)]
  {
    if w > 0 {
      var q := if p == 1 then |rot| - 1 else p - 1;
      RotatedSlot(rot, w - 1, q);
      SlotStep(rot, Rotated(rot, w - 1), w, p, q);
    }
  }

  /** After n-1 weeks the rotation is back where it started, and so is every later week. */
  lemma {:induction false} RotationPeriod(rot: seq<Slot>, w: nat)
    requires |rot| >= 2
    ensures Rotated(rot, w + |rot| - 1) == Rotated(rot, w)
  {
    var m := |rot| - 1;
    if w == 0 {
      var a := Rotated(rot, m);
      forall p | 1 <= p < |rot| ensures a[p] == rot[p] {
        RotatedSlot(rot, m, p);
      }
    } else {
      RotationPeriod(rot, w - 1);
    }
  }

  /** The schedule repeats itself every n-1 weeks, where n is the padded roster size: with the
      fixed season length a roster of at most eight slots meets the same opponents again from
      week n-1 on. */
  lemma ScheduleRepeatsEveryCycle(ids: seq<PlayerId>, w: nat)
    requires ids != []
    ensures WeekPairs(ids, w + |PrepareRotation(ids)| - 1) == WeekPairs(ids, w)
  {
    RotationPeriod(PrepareRotation(ids), w);
  }

  /** The padded roster never holds the same slot at two places. */
  lemma PrepareRotationInjective(ids: seq<PlayerId>, x: int, y: int)
    requires DistinctIds(ids)
    requires 0 <= x < |PrepareRotation(ids)| && 0 <= y < |PrepareRotation(ids)|
    requires PrepareRotation(ids)[x] == PrepareRotation(ids)[y]
    ensures x == y
  {
    PrepareRotationContents(ids);
  }

  lemma {:induction false} RotatedAt(rot: seq<Slot>, w: nat, p: int)
    requires |rot| >= 2 && w < |rot| - 1 && 0 <= p < |rot|
    ensures 0 <= SlotAt(|rot|, w, p) < |rot| && Rotated(rot, w)[p] == rot[SlotAt(|rot|, w, p)]
  {
    if p > 0 { RotatedSlot(rot, w, p); }
  }

  /** Every captured pair is the pair of some position i and its mirror n-1-i. */
  lemma {:induction false} CapturedPairAt(rot: seq<Slot>, from: nat, k: int) returns (i: int)
    requires 0 <= k < |CapturePairsFrom(rot, from)|
    ensures from <= i && 2 * i + 2 <= |rot|
    ensures CapturePairsFrom(rot, from)[k] == NormalizePair(rot[i], rot[|rot| - 1 - i])
    decreases |rot| - from
  {
    var a, b := rot[from], rot[|rot| - 1 - from];
    var rest := CapturePairsFrom(rot, from + 1);
    if a.None? && b.None? {
      assert CapturePairsFrom(rot, from) == rest;
      i := CapturedPairAt(rot, from + 1, k);
    } else {
      CaptureStep(rot, from);
      if k == 0 {
        i := from;
      } else {
        assert CapturePairsFrom(rot, from)[k] == rest[k - 1];
        i := CapturedPairAt(rot, from + 1, k - 1);
      }
    }
  }

  /** Two pairs of places of the padded roster that are not the same two places hold different
      pairs of slots, in either order. */
  lemma DistinctPlacesDistinctPairs(ids: seq<PlayerId>, a: int, b: int, c: int, d: int, p1: Pair, p2: Pair)
    requires DistinctIds(ids)
    requires var n := |PrepareRotation(ids)|; 0 <= a < n && 0 <= b < n && 0 <= c < n && 0 <= d < n
    requires !(a == c && b == d) && !(a == d && b == c)
    requires p1 == NormalizePair(PrepareRotation(ids)[a], PrepareRotation(ids)[b])
    requires p2 == NormalizePair(PrepareRotation(ids)[c], PrepareRotation(ids)[d])
    ensures p1 != p2 && p1 != (p2.1, p2.0)
  {
    var rot := PrepareRotation(ids);
    forall x, y | 0 <= x < |rot| && 0 <= y < |rot| && rot[x] == rot[y] ensures x == y {
      PrepareRotationInjective(ids, x, y);
    }
  }

  /** The arithmetic core of the circle method: in two different weeks of one cycle, the
      position pairs (i, n-1-i) and (j, n-1-j) never hold the same two slots. Slot 0 meets
      slot n-1-w in week w; other pairs' slots sum to n-1-2w, give or take a multiple of n-1,
      and two weeks less than a cycle apart differ by an even amount short of 2(n-1), which an
      odd n-1 never is. */
  lemma {:induction false} CycleSlotsDiffer(n: int, w1: nat, w2: nat, i: int, j: int, a: int, b: int, c: int, d: int)
    requires n >= 4 && n % 2 == 0 && w1 < w2 < n - 1
    requires 0 <= i && 2 * i + 2 <= n && 0 <= j && 2 * j + 2 <= n
    requires a == SlotAt(n, w1, i) && b == SlotAt(n, w1, n - 1 - i)
    requires c == SlotAt(n, w2, j) && d == SlotAt(n, w2, n - 1 - j)
    ensures !(a == c && b == d) && !(a == d && b == c)
  {
  }

  /** Pair k of week w (within the first cycle) holds the slots at places a and b of the padded
      roster, the slots that the rotation brings to some position i and its mirror n-1-i. */
  lemma {:induction false} WeekPairPlaces(ids: seq<PlayerId>, w: nat, k: int) returns (i: int, a: int, b: int)
    requires w < |PrepareRotation(ids)| - 1 && 0 <= k < |WeekPairs(ids, w)|
    ensures var n := |PrepareRotation(ids)|;
      && 0 <= i && 2 * i + 2 <= n
      && a == SlotAt(n, w, i) && b == SlotAt(n, w, n - 1 - i)
      && 0 <= a < n && 0 <= b < n
      && WeekPairs(ids, w)[k] == NormalizePair(PrepareRotation(ids)[a], PrepareRotation(ids)[b])
  {
    var rot := PrepareRotation(ids);
    var n := |rot|;
    WeekPairsCaptured(ids, w);
    i := CapturedPairAt(Rotated(rot, w), 0, k);
    RotatedAt(rot, w, i);
    RotatedAt(rot, w, n - 1 - i);
    a, b := SlotAt(n, w, i), SlotAt(n, w, n - 1 - i);
  }

  /** Within one cycle of n-1 weeks no two players meet twice and no player gets a second bye:
      a pair of one week never holds the same two slots, in either order, as a pair of a later
      week of the cycle. */
  lemma {:induction false} NoPairRepeatsWithinCycle(ids: seq<PlayerId>, w1: nat, w2: nat, k1: int, k2: int)
    requires DistinctIds(ids)
    requires w1 < w2 < |PrepareRotation(ids)| - 1
    requires 0 <= k1 < |WeekPairs(ids, w1)| && 0 <= k2 < |WeekPairs(ids, w2)|
    ensures var p1, p2 := WeekPairs(ids, w1)[k1], WeekPairs(ids, w2)[k2];
      p1 != p2 && p1 != (p2.1, p2.0)
  {
    var i, a, b := WeekPairPlaces(ids, w1, k1);
    var j, c, d := WeekPairPlaces(ids, w2, k2);
    assert !(a == c && b == d) && !(a == d && b == c) by {
      CycleSlotsDiffer(|PrepareRotation(ids)|, w1, w2, i, j, a, b, c, d);
    }
    DistinctPlacesDistinctPairs(ids, a, b, c, d, WeekPairs(ids, w1)[k1], WeekPairs(ids, w2)[k2]);
  }
}
