/** `son_gunleri_filtrele`: keep the items published within the last days.
    The clock is a parameter: `now` is the current time in epoch seconds. */
module Recency {
  import opened Model
  import opened Sequences

  const SecondsPerDay: int := 86400

  /** `simdi_utc() - timedelta(days=gun)`, in epoch seconds. */
  function Cutoff(now: int, days: int): (r: int)
    ensures days >= 0 ==> r <= now
  {
    now - days * SecondsPerDay
  }

  /** The items dated at or after `cutoff`, in their original order. */
  function Recent(items: seq<Item>, cutoff: int): (r: seq<Item>)
    ensures |r| <= |items|
  {
    if items == [] then []
    else (if items[0].date >= cutoff then [items[0]] else []) + Recent(items[1..], cutoff)
  }

  /** Only items at or after the cutoff survive, and they keep their order. */
  lemma {:induction false} RecentSound(items: seq<Item>, cutoff: int)
    ensures Subseq(Recent(items, cutoff), items)
    ensures forall x :: x in Recent(items, cutoff) ==> x.date >= cutoff
  {
    if items != [] {
      RecentSound(items[1..], cutoff);
      var rest := Recent(items[1..], cutoff);
      if items[0].date >= cutoff {
        assert ([items[0]] + rest)[1..] == rest;
      } else {
        assert [] + rest == rest;
      }
    }
  }

  /** Every occurrence of an item at or after the cutoff survives, and no
      other item does: with `RecentSound` this pins the result down. */
  lemma {:induction false} RecentComplete(items: seq<Item>, cutoff: int)
    ensures forall x :: multiset(Recent(items, cutoff))[x] ==
                          if x.date >= cutoff then multiset(items)[x] else 0
  {
    if items != [] {
      RecentComplete(items[1..], cutoff);
      assert items == [items[0]] + items[1..];
    }
  }

  /** Filtering a concatenation filters each part. */
  lemma {:induction false} RecentAppend(a: seq<Item>, b: seq<Item>, cutoff: int)
    ensures Recent(a + b, cutoff) == Recent(a, cutoff) + Recent(b, cutoff)
  {
    if a != [] {
      assert (a + b)[1..] == a[1..] + b;
      RecentAppend(a[1..], b, cutoff);
    } else {
      assert a + b == b;
    }
  }
}
