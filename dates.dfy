/** `entry_tarihi`: the publication timestamp of a feed entry. */
module Dates {
  import opened Model

  /** The first candidate that is present and converts to a timestamp. */
  function FirstEpoch(lib: Library, candidates: seq<Option<TimeTuple>>): (r: Option<int>)
    ensures r.Some? ==> exists i :: 0 <= i < |candidates| && candidates[i].Some?
                            && lib.toEpoch(candidates[i].value) == r
  {
    if candidates == [] then None
    else if candidates[0].Some? && lib.toEpoch(candidates[0].value).Some? then
      lib.toEpoch(candidates[0].value)
    else FirstEpoch(lib, candidates[1..])
  }

  /** `published_parsed` is tried first, then `updated_parsed`; a field that
      is absent or whose conversion raises is passed over. */
  function EntryTimestamp(lib: Library, e: Entry): (r: Option<int>)
    ensures e.publishedParsed.Some? && lib.toEpoch(e.publishedParsed.value).Some? ==>
              r == lib.toEpoch(e.publishedParsed.value)
    ensures !(e.publishedParsed.Some? && lib.toEpoch(e.publishedParsed.value).Some?) ==>
              r == (if e.updatedParsed.Some? then lib.toEpoch(e.updatedParsed.value) else None)
  {
    var keys := [e.publishedParsed, e.updatedParsed];
    assert keys[1..] == [e.updatedParsed] && keys[1..][1..] == [];
    assert FirstEpoch(lib, keys[1..][1..]) == None;
    assert FirstEpoch(lib, keys[1..]) ==
           if e.updatedParsed.Some? then lib.toEpoch(e.updatedParsed.value) else None;
    FirstEpoch(lib, keys)
  }

  /** The loop of `entry_tarihi`, with its early return. */
  method EntryDate(lib: Library, e: Entry) returns (d: Option<int>)
    ensures d == EntryTimestamp(lib, e)
  {
    var keys := [e.publishedParsed, e.updatedParsed];
    var i := 0;
    while i < |keys|
      invariant 0 <= i <= |keys|
      invariant FirstEpoch(lib, keys[i..]) == FirstEpoch(lib, keys)
    {
      if keys[i].Some? {
        var st := lib.toEpoch(keys[i].value);
        if st.Some? {
          return st;
        }
      }
      assert keys[i..][1..] == keys[i + 1..];
      i := i + 1;
    }
    return None;
  }
}
