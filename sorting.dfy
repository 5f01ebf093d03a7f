/** Python's `sorted(xs, key=...)` / `list.sort(key=...)`: a stable sort. Each use in the
    model supplies the comparison `leq(a, b)` ("key(a) <= key(b)") as a total preorder. */
module Sorting {

  ghost predicate TotalPreorder<T(!new)>(leq: (T, T) -> bool) {
    && (forall a, b :: leq(a, b) || leq(b, a))
    && (forall a, b, c :: leq(a, b) && leq(b, c) ==> leq(a, c))
  }

  predicate SortedBy<T>(s: seq<T>, leq: (T, T) -> bool) {
    forall i, j :: 0 <= i < j < |s| ==> leq(s[i], s[j])
  }

  /** Places `x` in front of the first element it does not exceed, so that `x` stays ahead of
      the elements that compare equal to it (stability). */
  function Insert<T(==)>(x: T, s: seq<T>, leq: (T, T) -> bool): (r: seq<T>)
    ensures multiset(r) == multiset(s) + multiset{x}
    ensures |r| == |s| + 1
  {
    if s == [] || leq(x, s[0]) then [x] + s
    else
      assert s == [s[0]] + s[1..];
      [s[0]] + Insert(x, s[1..], leq)
  }

  /** A lower bound of `x` and of every element of `s` bounds every element of the insertion. */
  lemma {:induction false} InsertKeepsLowerBound<T>(y: T, x: T, s: seq<T>, leq: (T, T) -> bool)
    requires leq(y, x) && forall k :: 0 <= k < |s| ==> leq(y, s[k])
    ensures forall j :: 0 <= j < |Insert(x, s, leq)| ==> leq(y, Insert(x, s, leq)[j])
  {
    if s != [] && !leq(x, s[0]) {
      var rest := Insert(x, s[1..], leq);
      InsertKeepsLowerBound(y, x, s[1..], leq);
      var r := Insert(x, s, leq);
      forall j | 0 <= j < |r| ensures leq(y, r[j]) {
        if j > 0 { assert r[j] == rest[j - 1]; }
      }
    }
  }

  lemma {:induction false} InsertSorted<T(!new)>(x: T, s: seq<T>, leq: (T, T) -> bool)
    requires TotalPreorder(leq) && SortedBy(s, leq)
    ensures SortedBy(Insert(x, s, leq), leq)
  {
    var r := Insert(x, s, leq);
    if s == [] || leq(x, s[0]) {
      forall i, j | 0 <= i < j < |r| ensures leq(r[i], r[j]) {
        if i == 0 {
          assert r[j] == s[j - 1];
          if j > 1 { assert leq(s[0], s[j - 1]); }
        } else {
          assert r[i] == s[i - 1] && r[j] == s[j - 1];
        }
      }
    } else {
      var rest := Insert(x, s[1..], leq);
      InsertSorted(x, s[1..], leq);
      assert SortedBy(s[1..], leq);
      InsertKeepsLowerBound(s[0], x, s[1..], leq);
      assert r == [s[0]] + rest;
      forall i, j | 0 <= i < j < |r| ensures leq(r[i], r[j]) {
        if i == 0 { assert r[j] == rest[j - 1]; } else { assert r[i] == rest[i - 1] && r[j] == rest[j - 1]; }
      }
    }
  }

  /** Stable sort: the result is a permutation of the input, ordered by `leq`. */
  function SortBy<T(==, !new)>(s: seq<T>, leq: (T, T) -> bool): (r: seq<T>)
    requires TotalPreorder(leq)
    ensures multiset(r) == multiset(s)
    ensures |r| == |s|
    ensures SortedBy(r, leq)
  {
    if s == [] then []
    else
      var tail := SortBy(s[1..], leq);
      assert s == [s[0]] + s[1..];
      InsertSorted(s[0], tail, leq);
      Insert(s[0], tail, leq)
  }

  /** Sorting what is already in order changes nothing. */
  lemma {:induction false} SortBySortedUnchanged<T(!new)>(s: seq<T>, leq: (T, T) -> bool)
    requires TotalPreorder(leq) && SortedBy(s, leq)
    ensures SortBy(s, leq) == s
  {
    if s != [] {
      assert SortedBy(s[1..], leq);
      SortBySortedUnchanged(s[1..], leq);
      if |s| > 1 { assert leq(s[0], s[1]); }
    }
  }

  /** The elements of `s` that compare equal to `y` under `leq`, in their order in `s`. */
  function EquivalentTo<T>(s: seq<T>, leq: (T, T) -> bool, y: T): seq<T> {
    if s == [] then []
    else (if leq(s[0], y) && leq(y, s[0]) then [s[0]] else []) + EquivalentTo(s[1..], leq, y)
  }

  lemma EquivalentToCons<T>(x: T, s: seq<T>, leq: (T, T) -> bool, y: T)
    ensures EquivalentTo([x] + s, leq, y)
         == (if leq(x, y) && leq(y, x) then [x] else []) + EquivalentTo(s, leq, y)
  {
    assert ([x] + s)[1..] == s;
  }

  /** Inserting `x` puts it ahead of every element that compares equal to it. */
  lemma {:induction false} InsertEquivalents<T(!new)>(x: T, s: seq<T>, leq: (T, T) -> bool, y: T)
    requires TotalPreorder(leq)
    ensures EquivalentTo(Insert(x, s, leq), leq, y)
         == (if leq(x, y) && leq(y, x) then [x] else []) + EquivalentTo(s, leq, y)
  {
    var ex := if leq(x, y) && leq(y, x) then [x] else [];
    if s == [] || leq(x, s[0]) {
      EquivalentToCons(x, s, leq, y);
    } else {
      var rest := Insert(x, s[1..], leq);
      var e0 := if leq(s[0], y) && leq(y, s[0]) then [s[0]] else [];
      InsertEquivalents(x, s[1..], leq, y);
      EquivalentToCons(s[0], rest, leq, y);
      assert EquivalentTo(Insert(x, s, leq), leq, y) == e0 + (ex + EquivalentTo(s[1..], leq, y));
      assert EquivalentTo(s, leq, y) == e0 + EquivalentTo(s[1..], leq, y);
      // x sorts after s[0], so the two cannot both compare equal to y
      assert ex == [] || e0 == [];
    }
  }

  /** Stability: the elements that compare equal to any `y` keep their input order. */
  lemma {:induction false} SortByStable<T(!new)>(s: seq<T>, leq: (T, T) -> bool, y: T)
    requires TotalPreorder(leq)
    ensures EquivalentTo(SortBy(s, leq), leq, y) == EquivalentTo(s, leq, y)
  {
    if s != [] {
      SortByStable(s[1..], leq, y);
      InsertEquivalents(s[0], SortBy(s[1..], leq), leq, y);
    }
  }
}
