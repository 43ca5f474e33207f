/** `tumunu_cek`: the aggregation driver.  Every feed is parsed into entries
    (given here as `Feed` values), at most `limit` usable entries are taken
    from each, and the union is filtered to the last days, deduplicated and
    sorted newest first.  `web` gives the outcome of fetching an article
    link, which `ozet_uret` consults for short summaries. */
module Pipeline {
  import opened Model
  import opened Text
  import opened Sequences
  import opened Dates
  import opened Summaries
  import opened Recency
  import opened Dedup
  import opened Ordering

  /** The item an entry becomes, or `None` when it has no usable date, or
      its title or link cleans to "". */
  function Candidate(lib: Library, web: string -> Option<Page>, fetch: bool, name: string, e: Entry)
    : Option<Item>
  {
    match EntryTimestamp(lib, e)
    case None => None
    case Some(d) =>
      var title := Clean(lib.unescape, e.title);
      var link := Clean(lib.unescape, e.link);
      if title == [] || link == [] then None
      else Some(Item(name, title, link, d, Summary(lib, e, DefaultMaxLen, fetch, web(link)), e))
  }

  /** The candidate function of one feed. */
  function CandidateOf(lib: Library, web: string -> Option<Page>, fetch: bool, name: string)
    : Entry -> Option<Item>
  {
    e => Candidate(lib, web, fetch, name, e)
  }

  function AsSeq(o: Option<Item>): seq<Item>
  {
    if o.Some? then [o.value] else []
  }

  /** The items of all usable entries, in feed order. */
  function Candidates(cand: Entry -> Option<Item>, entries: seq<Entry>): (r: seq<Item>)
    ensures |r| <= |entries|
  {
    if entries == [] then []
    else Candidates(cand, entries[..|entries| - 1]) + AsSeq(cand(entries[|entries| - 1]))
  }

  /** A negative or zero per-source limit takes nothing. */
  function Quota(limit: int): nat
  {
    if limit < 0 then 0 else limit
  }

  /** What one feed contributes: its first `limit` usable entries.  Entries
      without a date, title or link are skipped without counting. */
  function FeedItems(lib: Library, web: string -> Option<Page>, fetch: bool, f: Feed, limit: int)
    : (r: seq<Item>)
    ensures |r| <= Quota(limit)
  {
    Take(Candidates(CandidateOf(lib, web, fetch, f.name), f.entries), Quota(limit))
  }

  /** The `items` list after the feed loop. */
  function Collected(lib: Library, web: string -> Option<Page>, fetch: bool, feeds: seq<Feed>, limit: int)
    : seq<Item>
  {
    if feeds == [] then []
    else Collected(lib, web, fetch, feeds[..|feeds| - 1], limit)
         + FeedItems(lib, web, fetch, feeds[|feeds| - 1], limit)
  }

  /** `tumunu_cek(gun=days, limit_kaynak=limit, sayfadan_getir=fetch)` at time
      `now`. */
  function Aggregated(lib: Library, web: string -> Option<Page>, fetch: bool, feeds: seq<Feed>,
                      limit: int, now: int, days: int): seq<Item>
  {
    NewestFirst(Deduplicated(lib, Recent(Collected(lib, web, fetch, feeds, limit), Cutoff(now, days))))
  }

  // ---------------------------------------------------------------------
  // Properties of one feed's contribution

  lemma {:induction false} CandidatesAppend(cand: Entry -> Option<Item>, a: seq<Entry>, b: seq<Entry>)
    ensures Candidates(cand, a + b) == Candidates(cand, a) + Candidates(cand, b)
    decreases |b|
  {
    if b == [] {
      assert a + b == a;
    } else {
      var init := b[..|b| - 1];
      assert (a + b)[..|a + b| - 1] == a + init;
      CandidatesAppend(cand, a, init);
    }
  }

  /** An entry that yields no item can be removed without changing what the
      feed contributes: rejected entries do not use up the limit. */
  lemma RejectedIgnored(cand: Entry -> Option<Item>, a: seq<Entry>, e: Entry, b: seq<Entry>, n: nat)
    requires cand(e).None?
    ensures Take(Candidates(cand, a + [e] + b), n) == Take(Candidates(cand, a + b), n)
  {
    CandidatesAppend(cand, a + [e], b);
    CandidatesAppend(cand, a, b);
    assert (a + [e])[..|a + [e]| - 1] == a;
  }

  /** Every item comes from one of the entries, through the candidate
      function. */
  lemma {:induction false} CandidatesFrom(cand: Entry -> Option<Item>, entries: seq<Entry>)
    ensures forall x :: x in Candidates(cand, entries) ==> x.entry in entries && cand(x.entry) == Some(x)
    requires forall e :: cand(e).Some? ==> cand(e).value.entry == e
  {
    if entries != [] {
      var init := entries[..|entries| - 1];
      CandidatesFrom(cand, init);
      assert forall x :: x in init ==> x in entries;
    }
  }

  lemma CandidateEntry(lib: Library, web: string -> Option<Page>, fetch: bool, name: string, e: Entry)
    ensures var c := Candidate(lib, web, fetch, name, e);
      c.Some? ==> (c.value.entry == e && c.value.source == name
                   && c.value.title != [] && c.value.link != []
                   && EntryTimestamp(lib, e) == Some(c.value.date))
  {
  }

  /** The long prefix of the entries yields a prefix of the items. */
  lemma {:induction false} CandidatesPrefix(cand: Entry -> Option<Item>, entries: seq<Entry>, n: nat)
    requires n <= |entries|
    ensures Candidates(cand, entries[..n]) <= Candidates(cand, entries)
    decreases |entries| - n
  {
    if n < |entries| {
      CandidatesPrefix(cand, entries, n + 1);
      assert entries[..n + 1][..n] == entries[..n];
    } else {
      assert entries[..n] == entries;
    }
  }

  /** One more entry adds its item, if any. */
  lemma CandidatesStep(cand: Entry -> Option<Item>, entries: seq<Entry>, i: nat, c: Option<Item>)
    requires i < |entries| && c == cand(entries[i])
    ensures Candidates(cand, entries[..i + 1]) == Candidates(cand, entries[..i]) + AsSeq(c)
  {
    assert entries[..i + 1][..i] == entries[..i];
  }

  /** Stopping once `limit` items are in hand gives the feed's contribution. */
  lemma HarvestDone(cand: Entry -> Option<Item>, entries: seq<Entry>, i: nat, limit: int)
    requires i <= |entries|
    requires |Candidates(cand, entries[..i])| <= Quota(limit)
    requires i == |entries| || |Candidates(cand, entries[..i])| >= limit
    ensures Candidates(cand, entries[..i]) == Take(Candidates(cand, entries), Quota(limit))
  {
    if i == |entries| {
      assert entries[..i] == entries;
    } else {
      CandidatesPrefix(cand, entries, i);
      TakePrefix(Candidates(cand, entries[..i]), Candidates(cand, entries), Quota(limit));
    }
  }

  // ---------------------------------------------------------------------
  // The driver, step by step

  /** One entry of the inner loop: date, cleaned title and link, summary. */
  method MakeItem(lib: Library, web: string -> Option<Page>, fetch: bool, name: string, e: Entry)
    returns (c: Option<Item>)
    ensures c == Candidate(lib, web, fetch, name, e)
  {
    var date := EntryDate(lib, e);
    if date.None? {
      return None;
    }
    var title := Clean(lib.unescape, e.title);
    var link := Clean(lib.unescape, e.link);
    if title == [] || link == [] {
      return None;
    }
    var summary := ResolveSummary(lib, e, DefaultMaxLen, fetch, web(link));
    return Some(Item(name, title, link, date.value, summary, e));
  }

  /** `cand` computes the candidate of `e` for the feed `name`; stated per
      entry so that it is only used where the loop asks for it. */
  ghost predicate Agrees(lib: Library, web: string -> Option<Page>, fetch: bool,
                         cand: Entry -> Option<Item>, name: string, e: Entry)
  {
    cand(e) == Candidate(lib, web, fetch, name, e)
  }

  /** The inner loop of `tumunu_cek` for one feed: `count` usable entries are
      appended to `items` until it reaches `limit`.  `cand` names the
      candidate function of the feed, so that the loop reasons about one
      entry at a time. */
  method HarvestFeed(lib: Library, web: string -> Option<Page>, fetch: bool,
                     cand: Entry -> Option<Item>, f: Feed, limit: int, items: seq<Item>)
    returns (out: seq<Item>)
    requires forall e :: Agrees(lib, web, fetch, cand, f.name, e)
    ensures out == items + Take(Candidates(cand, f.entries), Quota(limit))
  {
    var entries := f.entries;
    out := items;
    var count := 0;
    var i := 0;
    assert entries[..0] == [];
    while i < |entries|
      invariant 0 <= i <= |entries|
      invariant out == items + Candidates(cand, entries[..i])
      invariant count == |Candidates(cand, entries[..i])| <= Quota(limit)
    {
      if count >= limit {
        HarvestDone(cand, entries, i, limit);
        return;
      }
      var c := MakeItem(lib, web, fetch, f.name, entries[i]);
      assert c == cand(entries[i]) by {
        assert Agrees(lib, web, fetch, cand, f.name, entries[i]);
      }
      CandidatesStep(cand, entries, i, c);
      if c.Some? {
        out := out + [c.value];
        count := count + 1;
      }
      i := i + 1;
    }
    HarvestDone(cand, entries, i, limit);
  }

  /** The feed loop of `tumunu_cek`. */
  method CollectFeeds(lib: Library, web: string -> Option<Page>, fetch: bool, feeds: seq<Feed>, limit: int)
    returns (items: seq<Item>)
    ensures items == Collected(lib, web, fetch, feeds, limit)
  {
    items := [];
    var k := 0;
    assert feeds[..0] == [];
    while k < |feeds|
      invariant 0 <= k <= |feeds|
      invariant items == Collected(lib, web, fetch, feeds[..k], limit)
    {
      var f := feeds[k];
      items := HarvestFeed(lib, web, fetch, CandidateOf(lib, web, fetch, f.name), f, limit, items);
      assert feeds[..k + 1][..k] == feeds[..k] && feeds[..k + 1][k] == f;
      k := k + 1;
    }
    assert feeds[..k] == feeds;
  }

  /** `tumunu_cek`: the collected items are filtered to the last `days`
      days, deduplicated and sorted newest first in place. */
  method Aggregate(lib: Library, web: string -> Option<Page>, fetch: bool, feeds: seq<Feed>,
                   limit: int, now: int, days: int)
    returns (result: seq<Item>)
    ensures result == Aggregated(lib, web, fetch, feeds, limit, now, days)
  {
    var items := CollectFeeds(lib, web, fetch, feeds, limit);
    items := Recent(items, Cutoff(now, days));
    items := RemoveDuplicates(lib, items);
    var a := new Item[|items|](j requires 0 <= j < |items| => items[j]);
    assert a[..] == items;
    SortNewestFirst(a);
    result := a[..];
  }

  // ---------------------------------------------------------------------
  // Properties of the aggregate

  /** The result is ordered newest first. */
  lemma AggregatedSorted(lib: Library, web: string -> Option<Page>, fetch: bool, feeds: seq<Feed>,
                         limit: int, now: int, days: int)
    ensures NewerFirst(Aggregated(lib, web, fetch, feeds, limit, now, days))
  {
    NewestFirstSorted(Deduplicated(lib, Recent(Collected(lib, web, fetch, feeds, limit), Cutoff(now, days))));
  }

  /** Each item of the result is an item of the collected list that is
      recent enough. */
  lemma AggregatedFromRecent(lib: Library, web: string -> Option<Page>, fetch: bool, feeds: seq<Feed>,
                             limit: int, now: int, days: int)
    ensures forall x :: x in Aggregated(lib, web, fetch, feeds, limit, now, days) ==>
              x in Collected(lib, web, fetch, feeds, limit) && x.date >= Cutoff(now, days)
    ensures multiset(Aggregated(lib, web, fetch, feeds, limit, now, days))
              <= multiset(Collected(lib, web, fetch, feeds, limit))
  {
    var all := Collected(lib, web, fetch, feeds, limit);
    var recent := Recent(all, Cutoff(now, days));
    var unique := Deduplicated(lib, recent);
    NewestFirstPermutation(unique);
    DedupSubseq(TitleLinkKey(lib), recent, {});
    SubseqMembers(unique, recent);
    RecentSound(all, Cutoff(now, days));
    SubseqMembers(recent, all);
    SubseqTrans(unique, recent, all);
    SubseqMultiset(unique, all);
    forall x | x in NewestFirst(unique) ensures x in all && x.date >= Cutoff(now, days) {
      assert x in multiset(NewestFirst(unique));
      assert x in unique;
    }
  }

  /** No two items of the result share a (title, link) key. */
  lemma AggregatedDistinct(lib: Library, web: string -> Option<Page>, fetch: bool, feeds: seq<Feed>,
                           limit: int, now: int, days: int)
    ensures DistinctKeys(TitleLinkKey(lib), Aggregated(lib, web, fetch, feeds, limit, now, days))
  {
    var recent := Recent(Collected(lib, web, fetch, feeds, limit), Cutoff(now, days));
    var unique := Deduplicated(lib, recent);
    DedupDistinct(TitleLinkKey(lib), recent, {});
    NewestFirstPermutation(unique);
    DistinctKeysPermutation(TitleLinkKey(lib), unique, NewestFirst(unique));
  }

  /** Within one sequence, an element that occurs at two positions occurs
      at least twice. */
  lemma TwiceCounted(s: seq<Item>, i: nat, j: nat)
    requires i < j < |s| && s[i] == s[j]
    ensures multiset(s)[s[i]] >= 2
  {
    assert s == s[..j] + s[j..];
    assert s[i] in s[..j] && s[j] in s[j..];
  }

  /** With distinct keys, each item occurs once and no two items share a key. */
  lemma {:induction false} DistinctKeysOnce(key: Item -> Key, s: seq<Item>)
    requires DistinctKeys(key, s)
    ensures forall x :: multiset(s)[x] <= 1
  {
    if s != [] {
      var rest := s[1..];
      assert DistinctKeys(key, rest) by {
        forall i, j | 0 <= i < j < |rest| ensures key(rest[i]) != key(rest[j]) {
          assert rest[i] == s[i + 1] && rest[j] == s[j + 1];
        }
      }
      DistinctKeysOnce(key, rest);
      assert s == [s[0]] + rest;
      assert s[0] !in rest;
    }
  }

  /** Distinct keys survive a permutation. */
  lemma DistinctKeysPermutation(key: Item -> Key, a: seq<Item>, b: seq<Item>)
    requires multiset(a) == multiset(b) && DistinctKeys(key, a)
    ensures DistinctKeys(key, b)
  {
    DistinctKeysOnce(key, a);
    forall i, j | 0 <= i < j < |b| ensures key(b[i]) != key(b[j]) {
      if key(b[i]) == key(b[j]) {
        assert b[i] in multiset(a) && b[j] in multiset(a);
        var p :| 0 <= p < |a| && a[p] == b[i];
        var q :| 0 <= q < |a| && a[q] == b[j];
        if p == q {
          TwiceCounted(b, i, j);
        }
      }
    }
  }

  /** Each item of the result is built from an entry of a feed exactly as
      `tumunu_cek` builds it: its source is that feed's name, its title and
      link are the entry's cleaned and non-empty, its date is the entry's
      timestamp and its summary is `ozet_uret`'s. */
  lemma AggregatedItems(lib: Library, web: string -> Option<Page>, fetch: bool, feeds: seq<Feed>,
                        limit: int, now: int, days: int)
    ensures forall x :: x in Aggregated(lib, web, fetch, feeds, limit, now, days) ==>
              exists f :: f in feeds && x.entry in f.entries
                          && Candidate(lib, web, fetch, f.name, x.entry) == Some(x)
  {
    AggregatedFromRecent(lib, web, fetch, feeds, limit, now, days);
    CollectedFrom(lib, web, fetch, feeds, limit);
  }

  lemma {:induction false} CollectedFrom(lib: Library, web: string -> Option<Page>, fetch: bool,
                                         feeds: seq<Feed>, limit: int)
    ensures forall x :: x in Collected(lib, web, fetch, feeds, limit) ==>
              exists f :: f in feeds && x.entry in f.entries
                          && Candidate(lib, web, fetch, f.name, x.entry) == Some(x)
  {
    if feeds != [] {
      var init := feeds[..|feeds| - 1];
      var last := feeds[|feeds| - 1];
      CollectedFrom(lib, web, fetch, init, limit);
      var cand := CandidateOf(lib, web, fetch, last.name);
      forall e ensures cand(e).Some? ==> cand(e).value.entry == e {
        CandidateEntry(lib, web, fetch, last.name, e);
      }
      CandidatesFrom(cand, last.entries);
      var mine := FeedItems(lib, web, fetch, last, limit);
      forall x | x in Collected(lib, web, fetch, feeds, limit)
        ensures exists f :: f in feeds && x.entry in f.entries
                            && Candidate(lib, web, fetch, f.name, x.entry) == Some(x)
      {
        if x in Collected(lib, web, fetch, init, limit) {
          var f :| f in init && x.entry in f.entries && Candidate(lib, web, fetch, f.name, x.entry) == Some(x);
          assert f in feeds;
        } else {
          assert x in mine;
          assert x in Candidates(cand, last.entries);
          assert last in feeds;
        }
      }
    }
  }

  // ---------------------------------------------------------------------
  // The per-source limit

  /** How many items of `s` come from the source `name`. */
  function SourceCount(s: seq<Item>, name: string): nat
  {
    if s == [] then 0 else (if s[0].source == name then 1 else 0) + SourceCount(s[1..], name)
  }

  lemma {:induction false} SourceCountAppend(a: seq<Item>, b: seq<Item>, name: string)
    ensures SourceCount(a + b, name) == SourceCount(a, name) + SourceCount(b, name)
  {
    if a != [] {
      assert (a + b)[1..] == a[1..] + b;
      SourceCountAppend(a[1..], b, name);
    } else {
      assert a + b == b;
    }
  }

  lemma {:induction false} SourceCountSubseq(a: seq<Item>, b: seq<Item>, name: string)
    requires Subseq(a, b)
    ensures SourceCount(a, name) <= SourceCount(b, name)
    decreases |b|
  {
    if a != [] {
      if a[0] == b[0] && Subseq(a[1..], b[1..]) {
        SourceCountSubseq(a[1..], b[1..], name);
      } else {
        SourceCountSubseq(a, b[1..], name);
      }
    }
  }

  lemma {:induction false} SourceCountInsert(x: Item, s: seq<Item>, name: string)
    ensures SourceCount(Insert(x, s), name) == SourceCount(s, name) + (if x.source == name then 1 else 0)
  {
    if s == [] || s[|s| - 1].date >= x.date {
      SourceCountAppend(s, [x], name);
    } else {
      var init := s[..|s| - 1];
      var last := s[|s| - 1];
      SourceCountInsert(x, init, name);
      SourceCountAppend(Insert(x, init), [last], name);
      SourceCountAppend(init, [last], name);
      assert s == init + [last];
    }
  }

  /** Sorting does not change how many items a source has. */
  lemma {:induction false} SourceCountSorted(s: seq<Item>, name: string)
    ensures SourceCount(NewestFirst(s), name) == SourceCount(s, name)
  {
    if s != [] {
      var init := s[..|s| - 1];
      SourceCountSorted(init, name);
      SourceCountInsert(s[|s| - 1], NewestFirst(init), name);
      SourceCountAppend(init, [s[|s| - 1]], name);
      assert s == init + [s[|s| - 1]];
    }
  }

  /** All items of `s` come from the source `name`. */
  lemma {:induction false} SourceCountAll(s: seq<Item>, name: string)
    requires forall x :: x in s ==> x.source == name
    ensures SourceCount(s, name) == |s|
  {
    if s != [] {
      assert forall x :: x in s[1..] ==> x in s;
      SourceCountAll(s[1..], name);
    }
  }

  /** No item of `s` comes from the source `name`. */
  lemma {:induction false} SourceCountNone(s: seq<Item>, name: string)
    requires forall x :: x in s ==> x.source != name
    ensures SourceCount(s, name) == 0
  {
    if s != [] {
      assert forall x :: x in s[1..] ==> x in s;
      SourceCountNone(s[1..], name);
    }
  }

  /** A feed's items all carry its name. */
  lemma FeedItemsSource(lib: Library, web: string -> Option<Page>, fetch: bool, f: Feed, limit: int)
    ensures forall x :: x in FeedItems(lib, web, fetch, f, limit) ==> x.source == f.name
    ensures |FeedItems(lib, web, fetch, f, limit)| <= Quota(limit)
  {
    var cand := CandidateOf(lib, web, fetch, f.name);
    forall e ensures cand(e).Some? ==> cand(e).value.entry == e && cand(e).value.source == f.name {
      CandidateEntry(lib, web, fetch, f.name, e);
    }
    CandidatesFrom(cand, f.entries);
  }

  /** When feed names are distinct, each source has at most `limit` items
      in the collected list. */
  lemma {:induction false} CollectedPerSource(lib: Library, web: string -> Option<Page>, fetch: bool,
                                              feeds: seq<Feed>, limit: int, name: string)
    requires forall i, j :: 0 <= i < j < |feeds| ==> feeds[i].name != feeds[j].name
    ensures SourceCount(Collected(lib, web, fetch, feeds, limit), name) <= Quota(limit)
    ensures (forall f :: f in feeds ==> f.name != name) ==>
              SourceCount(Collected(lib, web, fetch, feeds, limit), name) == 0
  {
    if feeds != [] {
      var init := feeds[..|feeds| - 1];
      var last := feeds[|feeds| - 1];
      CollectedPerSource(lib, web, fetch, init, limit, name);
      var mine := FeedItems(lib, web, fetch, last, limit);
      SourceCountAppend(Collected(lib, web, fetch, init, limit), mine, name);
      FeedItemsSource(lib, web, fetch, last, limit);
      if last.name == name {
        SourceCountAll(mine, name);
        forall f | f in init ensures f.name != name {
          var i :| 0 <= i < |init| && init[i] == f;
          assert feeds[i] == f;
        }
      } else {
        SourceCountNone(mine, name);
      }
    }
  }

  /** Each source contributes at most `limit` items to the result, when the
      feeds have distinct names. */
  lemma AggregatedPerSource(lib: Library, web: string -> Option<Page>, fetch: bool, feeds: seq<Feed>,
                            limit: int, now: int, days: int, name: string)
    requires forall i, j :: 0 <= i < j < |feeds| ==> feeds[i].name != feeds[j].name
    ensures SourceCount(Aggregated(lib, web, fetch, feeds, limit, now, days), name) <= Quota(limit)
  {
    var all := Collected(lib, web, fetch, feeds, limit);
    var recent := Recent(all, Cutoff(now, days));
    var unique := Deduplicated(lib, recent);
    CollectedPerSource(lib, web, fetch, feeds, limit, name);
    RecentSound(all, Cutoff(now, days));
    SourceCountSubseq(recent, all, name);
    DedupSubseq(TitleLinkKey(lib), recent, {});
    SourceCountSubseq(unique, recent, name);
    SourceCountSorted(unique, name);
  }
}
