/** `tekrarlari_temizle`: drop every item whose key was already seen. */
module Dedup {
  import opened Model
  import opened Text
  import opened Sequences

  /** The lower-cased stripped title and the stripped link. */
  type Key = (string, string)

  function ItemKey(lib: Library, it: Item): (r: Key)
    ensures Trimmed(r.0) && Trimmed(r.1)
  {
    StripKeeps(lib.lower(it.title));
    StripKeeps(it.link);
    (Strip(lib.lower(it.title)), Strip(it.link))
  }

  /** `ItemKey` as the key function the deduplication is stated over. */
  function TitleLinkKey(lib: Library): Item -> Key
  {
    it => ItemKey(lib, it)
  }

  /** The items, skipping those whose key is in `seen` or was met before. */
  function DedupFrom(key: Item -> Key, items: seq<Item>, seen: set<Key>): (r: seq<Item>)
    ensures |r| <= |items|
  {
    if items == [] then []
    else
      var k := key(items[0]);
      if k in seen then DedupFrom(key, items[1..], seen)
      else [items[0]] + DedupFrom(key, items[1..], seen + {k})
  }

  /** `tekrarlari_temizle`. */
  function Deduplicated(lib: Library, items: seq<Item>): (r: seq<Item>)
    ensures |r| <= |items|
  {
    DedupFrom(TitleLinkKey(lib), items, {})
  }

  /** The keys of all items of `s`. */
  function KeysOf(key: Item -> Key, s: seq<Item>): set<Key>
  {
    if s == [] then {} else {key(s[0])} + KeysOf(key, s[1..])
  }

  /** No two items share a key. */
  ghost predicate DistinctKeys(key: Item -> Key, s: seq<Item>)
  {
    forall i, j :: 0 <= i < j < |s| ==> key(s[i]) != key(s[j])
  }

  /** The first item of `s` with key `k`. */
  function FirstWithKey(key: Item -> Key, s: seq<Item>, k: Key): Option<Item>
  {
    if s == [] then None
    else if key(s[0]) == k then Some(s[0])
    else FirstWithKey(key, s[1..], k)
  }

  /** The loop of `tekrarlari_temizle`, with its `seen` set and `out` list. */
  method RemoveDuplicates(lib: Library, items: seq<Item>) returns (out: seq<Item>)
    ensures out == Deduplicated(lib, items)
  {
    var seen: set<Key> := {};
    out := [];
    var i := 0;
    while i < |items|
      invariant 0 <= i <= |items|
      invariant Deduplicated(lib, items) == out + DedupFrom(TitleLinkKey(lib), items[i..], seen)
    {
      var it := items[i];
      var key := ItemKey(lib, it);
      assert items[i..][0] == it && items[i..][1..] == items[i + 1..];
      if key !in seen {
        seen := seen + {key};
        out := out + [it];
      }
      i := i + 1;
    }
    assert items[i..] == [];
  }

  /** The result keeps some of the items, in their order. */
  lemma {:induction false} DedupSubseq(key: Item -> Key, items: seq<Item>, seen: set<Key>)
    ensures Subseq(DedupFrom(key, items, seen), items)
  {
    if items != [] {
      var k := key(items[0]);
      if k in seen {
        DedupSubseq(key, items[1..], seen);
      } else {
        DedupSubseq(key, items[1..], seen + {k});
        var r := DedupFrom(key, items, seen);
        assert r[0] == items[0] && r[1..] == DedupFrom(key, items[1..], seen + {k});
      }
    }
  }

  /** No key of the result was seen before, and no key occurs twice. */
  lemma {:induction false} DedupDistinct(key: Item -> Key, items: seq<Item>, seen: set<Key>)
    ensures forall x :: x in DedupFrom(key, items, seen) ==> key(x) !in seen
    ensures DistinctKeys(key, DedupFrom(key, items, seen))
  {
    if items != [] {
      var k := key(items[0]);
      if k in seen {
        DedupDistinct(key, items[1..], seen);
      } else {
        var rest := DedupFrom(key, items[1..], seen + {k});
        DedupDistinct(key, items[1..], seen + {k});
        var r := [items[0]] + rest;
        assert forall i :: 1 <= i < |r| ==> r[i] == rest[i - 1];
        assert forall x :: x in r ==> x == items[0] || x in rest;
      }
    }
  }

  /** Every key of the input that was not seen before is kept. */
  lemma {:induction false} DedupKeys(key: Item -> Key, items: seq<Item>, seen: set<Key>)
    ensures KeysOf(key, DedupFrom(key, items, seen)) == KeysOf(key, items) - seen
  {
    if items != [] {
      var k := key(items[0]);
      if k in seen {
        DedupKeys(key, items[1..], seen);
      } else {
        DedupKeys(key, items[1..], seen + {k});
        var r := DedupFrom(key, items, seen);
        assert r[0] == items[0] && r[1..] == DedupFrom(key, items[1..], seen + {k});
      }
    }
  }

  /** Each kept item is the first occurrence of its key. */
  lemma {:induction false} DedupFirst(key: Item -> Key, items: seq<Item>, seen: set<Key>)
    ensures forall x :: x in DedupFrom(key, items, seen) ==>
              FirstWithKey(key, items, key(x)) == Some(x)
  {
    if items != [] {
      var k := key(items[0]);
      DedupDistinct(key, items[1..], if k in seen then seen else seen + {k});
      if k in seen {
        DedupFirst(key, items[1..], seen);
        DedupDistinct(key, items, seen);
      } else {
        var rest := DedupFrom(key, items[1..], seen + {k});
        DedupFirst(key, items[1..], seen + {k});
        assert forall x :: x in DedupFrom(key, items, seen) ==> x == items[0] || x in rest;
      }
    }
  }
}
