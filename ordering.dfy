/** `items.sort(key=lambda x: x.tarih, reverse=True)`: a stable sort, newest
    first.  Python's sort with `reverse=True` keeps items with equal dates in
    their original order. */
module Ordering {
  import opened Model

  /** Dates never increase along the sequence. */
  ghost predicate NewerFirst(s: seq<Item>)
  {
    forall i, j :: 0 <= i < j < |s| ==> s[i].date >= s[j].date
  }

  /** Places `x` after every element of `s`, scanning from the back, that is
      at least as new as `x`. */
  function Insert(x: Item, s: seq<Item>): (r: seq<Item>)
    ensures |r| == |s| + 1
  {
    if s == [] || s[|s| - 1].date >= x.date then s + [x]
    else Insert(x, s[..|s| - 1]) + [s[|s| - 1]]
  }

  /** The stable newest-first order: each element is inserted, in turn, into
      the ordered prefix before it. */
  function NewestFirst(s: seq<Item>): (r: seq<Item>)
    ensures |r| == |s|
  {
    if s == [] then [] else Insert(s[|s| - 1], NewestFirst(s[..|s| - 1]))
  }

  /** The elements of `s` with date `d`, in order. */
  function WithDate(s: seq<Item>, d: int): seq<Item>
  {
    if s == [] then []
    else WithDate(s[..|s| - 1], d) + (if s[|s| - 1].date == d then [s[|s| - 1]] else [])
  }

  lemma {:induction false} InsertMultiset(x: Item, s: seq<Item>)
    ensures multiset(Insert(x, s)) == multiset(s) + multiset{x}
  {
    if !(s == [] || s[|s| - 1].date >= x.date) {
      var init := s[..|s| - 1];
      InsertMultiset(x, init);
      assert s == init + [s[|s| - 1]];
    }
  }

  /** When `x` goes before the last element of a newest-first `s`, nothing
      that ends up before that element is older than it. */
  lemma InsertNotOlder(x: Item, s: seq<Item>)
    requires NewerFirst(s) && s != [] && s[|s| - 1].date < x.date
    ensures forall y :: y in Insert(x, s[..|s| - 1]) ==> y.date >= s[|s| - 1].date
  {
    var init := s[..|s| - 1];
    InsertMultiset(x, init);
    forall y | y in Insert(x, init) ensures y.date >= s[|s| - 1].date {
      assert y in multiset(Insert(x, init));
      if y != x {
        assert y in multiset(init);
        var i :| 0 <= i < |init| && init[i] == y;
        assert s[i] == y;
      }
    }
  }

  lemma {:induction false} InsertSorted(x: Item, s: seq<Item>)
    requires NewerFirst(s)
    ensures NewerFirst(Insert(x, s))
  {
    if !(s == [] || s[|s| - 1].date >= x.date) {
      var init := s[..|s| - 1];
      var last := s[|s| - 1];
      InsertSorted(x, init);
      InsertMultiset(x, init);
      var r := Insert(x, init);
      InsertNotOlder(x, s);
      var t := r + [last];
      forall i, j | 0 <= i < j < |t| ensures t[i].date >= t[j].date {
        if j == |t| - 1 {
          assert t[i] in r;
        }
      }
    }
  }

  /** Inserting `x` adds it after the elements with its date. */
  lemma {:induction false} InsertWithDate(x: Item, s: seq<Item>, d: int)
    ensures WithDate(Insert(x, s), d) == WithDate(s, d) + (if x.date == d then [x] else [])
  {
    if s == [] || s[|s| - 1].date >= x.date {
      assert (s + [x])[..|s|] == s;
    } else {
      var init := s[..|s| - 1];
      var last := s[|s| - 1];
      InsertWithDate(x, init, d);
      var r := Insert(x, init);
      assert (r + [last])[..|r|] == r;
    }
  }

  /** The result is ordered newest first. */
  lemma {:induction false} NewestFirstSorted(s: seq<Item>)
    ensures NewerFirst(NewestFirst(s))
  {
    if s != [] {
      NewestFirstSorted(s[..|s| - 1]);
      InsertSorted(s[|s| - 1], NewestFirst(s[..|s| - 1]));
    }
  }

  /** The result is a permutation of the input. */
  lemma {:induction false} NewestFirstPermutation(s: seq<Item>)
    ensures multiset(NewestFirst(s)) == multiset(s)
  {
    if s != [] {
      NewestFirstPermutation(s[..|s| - 1]);
      InsertMultiset(s[|s| - 1], NewestFirst(s[..|s| - 1]));
      assert s == s[..|s| - 1] + [s[|s| - 1]];
    }
  }

  /** Stability: items with the same date keep their relative order. */
  lemma {:induction false} NewestFirstStable(s: seq<Item>, d: int)
    ensures WithDate(NewestFirst(s), d) == WithDate(s, d)
  {
    if s != [] {
      NewestFirstStable(s[..|s| - 1], d);
      InsertWithDate(s[|s| - 1], NewestFirst(s[..|s| - 1]), d);
    }
  }

  /** `x` lands right after the last element at least as new as it, when
      everything after that point is strictly older. */
  lemma {:induction false} InsertPosition(x: Item, s: seq<Item>, j: nat)
    requires j <= |s| && (j == 0 || s[j - 1].date >= x.date)
    requires forall k :: j <= k < |s| ==> s[k].date < x.date
    ensures Insert(x, s) == s[..j] + [x] + s[j..]
    decreases |s|
  {
    if j < |s| {
      var init := s[..|s| - 1];
      assert init[..j] == s[..j] && init[j..] + [s[|s| - 1]] == s[j..];
      InsertPosition(x, init, j);
    } else {
      assert s[..j] == s && s[j..] == [];
    }
  }

  /** The prefix of one more element. */
  lemma NewestFirstStep(s: seq<Item>, i: nat)
    requires i < |s|
    ensures NewestFirst(s[..i + 1]) == Insert(s[i], NewestFirst(s[..i]))
  {
    assert s[..i + 1][..i] == s[..i];
  }

  /** The inner loop of the insertion sort: the elements before position
      `i` that are strictly older than `x` are shifted one place right; `j`
      is the gap left in front of them. */
  method ShiftOlder(a: array<Item>, i: nat, x: Item) returns (j: nat)
    requires i < a.Length
    modifies a
    ensures j <= i
    ensures forall k :: 0 <= k < j ==> a[k] == old(a[k])
    ensures forall k :: j < k <= i ==> a[k] == old(a[k - 1])
    ensures forall k :: i < k < a.Length ==> a[k] == old(a[k])
    ensures forall k :: j <= k < i ==> old(a[k]).date < x.date
    ensures j == 0 || old(a[j - 1]).date >= x.date
  {
    j := i;
    while j > 0 && a[j - 1].date < x.date
      invariant 0 <= j <= i
      invariant forall k :: 0 <= k < j ==> a[k] == old(a[k])
      invariant forall k :: j < k <= i ==> a[k] == old(a[k - 1])
      invariant forall k :: i < k < a.Length ==> a[k] == old(a[k])
      invariant forall k :: j <= k < i ==> old(a[k]).date < x.date
    {
      a[j] := a[j - 1];
      j := j - 1;
    }
  }

  /** After the shift and the write of `x` into the gap, the first `i + 1`
      elements are those before `j`, then `x`, then the shifted ones. */
  lemma Shifted(before: seq<Item>, after: seq<Item>, i: nat, j: nat, x: Item)
    requires j <= i < |before| == |after|
    requires forall k :: 0 <= k < j ==> after[k] == before[k]
    requires after[j] == x
    requires forall k :: j < k <= i ==> after[k] == before[k - 1]
    requires forall k :: i < k < |after| ==> after[k] == before[k]
    ensures after[..i + 1] == before[..j] + [x] + before[j..i]
    ensures after[i + 1..] == before[i + 1..]
  {
    var p := before[..j] + [x] + before[j..i];
    assert |p| == i + 1;
    forall k | 0 <= k <= i ensures after[k] == p[k] {
      if k < j {
        assert p[k] == before[k];
      } else if k > j {
        assert p[k] == before[j..i][k - j - 1];
      }
    }
  }

  /** The insertion step, put together. */
  lemma Placed(before: seq<Item>, after: seq<Item>, i: nat, j: nat, x: Item)
    requires j <= i < |before| == |after|
    requires forall k :: 0 <= k < j ==> after[k] == before[k]
    requires after[j] == x
    requires forall k :: j < k <= i ==> after[k] == before[k - 1]
    requires forall k :: i < k < |after| ==> after[k] == before[k]
    requires forall k :: j <= k < i ==> before[k].date < x.date
    requires j == 0 || before[j - 1].date >= x.date
    ensures after[..i + 1] == Insert(x, before[..i])
    ensures after[i + 1..] == before[i + 1..]
  {
    Shifted(before, after, i, j, x);
    var sorted := before[..i];
    assert sorted[..j] == before[..j] && sorted[j..] == before[j..i];
    InsertPosition(x, sorted, j);
  }

  /** One step of the insertion sort: `a[i]` is moved into place among the
      elements before it. */
  method InsertAt(a: array<Item>, i: nat)
    requires i < a.Length
    modifies a
    ensures a[..i + 1] == Insert(old(a[i]), old(a[..i]))
    ensures a[i + 1..] == old(a[i + 1..])
  {
    var x := a[i];
    ghost var before := a[..];
    var j := ShiftOlder(a, i, x);
    a[j] := x;
    Placed(before, a[..], i, j, x);
  }

  /** Insertion sort in place, newest first. */
  method SortNewestFirst(a: array<Item>)
    modifies a
    ensures a[..] == NewestFirst(old(a[..]))
  {
    ghost var orig := a[..];
    var i := 0;
    while i < a.Length
      invariant 0 <= i <= a.Length
      invariant a[..i] == NewestFirst(orig[..i])
      invariant a[i..] == orig[i..]
    {
      assert a[i] == orig[i];
      InsertAt(a, i);
      NewestFirstStep(orig, i);
      i := i + 1;
    }
    assert a[..i] == a[..] && orig[..i] == orig;
  }
}
