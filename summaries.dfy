/** Summary resolution: `meta_description_getir` (the page-derived
    fallback) and `ozet_uret` (entry text, fallback, final cleanup and
    truncation).  The article page is given as the outcome of fetching the
    item's link: `None` stands for every failure the source catches. */
module Summaries {
  import opened Model
  import opened Text
  import opened Sequences

  /** Entry text shorter than this asks for the page fallback. */
  const MinEntryText: nat := 80
  /** A paragraph must be longer than this to be used. */
  const MinParagraph: nat := 60
  /** At most this many paragraphs are joined. */
  const MaxParagraphs: nat := 2
  /** The joined paragraphs are cut to this many characters. */
  const MaxPageText: nat := 600
  /** The summary cap the aggregation driver uses. */
  const DefaultMaxLen: int := 420

  /** A BeautifulSoup attribute filter for a `<meta>` tag. */
  datatype Selector = ByName(value: string) | ByProperty(value: string)

  predicate Matches(m: Meta, sel: Selector)
  {
    match sel
    case ByName(v) => m.name == v
    case ByProperty(v) => m.property == v
  }

  /** The description tags, in the order they are tried. */
  const DescriptionSelectors: seq<Selector> :=
    [ByName("description"), ByProperty("og:description"), ByName("twitter:description")]

  /** `soup.find("meta", attrs)`: the first matching tag. */
  function FindMeta(metas: seq<Meta>, sel: Selector): (r: Option<Meta>)
    ensures r.Some? ==> exists i :: 0 <= i < |metas| && metas[i] == r.value && Matches(metas[i], sel)
                           && forall j :: 0 <= j < i ==> !Matches(metas[j], sel)
    ensures r.None? ==> forall i :: 0 <= i < |metas| ==> !Matches(metas[i], sel)
  {
    if metas == [] then None
    else if Matches(metas[0], sel) then Some(metas[0])
    else
      var r := FindMeta(metas[1..], sel);
      assert r.Some? ==> exists i :: 0 <= i < |metas[1..]| && metas[1..][i] == r.value
                            && Matches(metas[1..][i], sel)
                            && forall j :: 0 <= j < i ==> !Matches(metas[1..][j], sel);
      assert forall i :: 1 <= i < |metas| ==> metas[i] == metas[1..][i - 1];
      r
  }

  /** What one selector yields: the cleaned `content` of the first matching
      tag, when that content is there and does not clean to "". */
  function SelectorContent(lib: Library, metas: seq<Meta>, sel: Selector): (r: Option<string>)
    ensures r.Some? ==> r.value != []
  {
    var tag := FindMeta(metas, sel);
    if tag.Some? && tag.value.content != [] && Clean(lib.unescape, tag.value.content) != [] then
      Some(Clean(lib.unescape, tag.value.content))
    else None
  }

  /** The selectors are tried in order and the first that yields wins. */
  function FirstMetaContent(lib: Library, metas: seq<Meta>, sels: seq<Selector>): (r: Option<string>)
    ensures r.Some? ==> r.value != []
  {
    if sels == [] then None
    else if SelectorContent(lib, metas, sels[0]).Some? then SelectorContent(lib, metas, sels[0])
    else FirstMetaContent(lib, metas, sels[1..])
  }

  lemma {:induction false} FirstMetaContentNormalized(lib: Library, metas: seq<Meta>, sels: seq<Selector>)
    ensures var r := FirstMetaContent(lib, metas, sels); r.Some? ==> Normalized(r.value)
  {
    if sels != [] {
      var tag := FindMeta(metas, sels[0]);
      if tag.Some? {
        CleanNormalized(lib.unescape, tag.value.content);
      }
      FirstMetaContentNormalized(lib, metas, sels[1..]);
    }
  }

  /** `temiz_metin` applied to the text of one `<p>` element. */
  function ParagraphText(lib: Library): string -> string
  {
    p => Clean(lib.unescape, p)
  }

  /** The cleaned texts of the paragraphs longer than `MinParagraph`
      characters, in document order. */
  function LongParagraphs(clean: string -> string, ps: seq<string>): (r: seq<string>)
    ensures |r| <= |ps|
  {
    if ps == [] then []
    else
      var t := clean(ps[|ps| - 1]);
      LongParagraphs(clean, ps[..|ps| - 1]) + (if |t| > MinParagraph then [t] else [])
  }

  /** `x` is the cleaned text of one of the paragraphs `ps`. */
  ghost predicate CleanedFrom(clean: string -> string, ps: seq<string>, x: string)
  {
    exists i :: 0 <= i < |ps| && x == clean(ps[i])
  }

  /** Every collected paragraph is longer than `MinParagraph` and is the
      cleaned text of one of the page's paragraphs. */
  lemma {:induction false} LongParagraphsLong(clean: string -> string, ps: seq<string>)
    ensures forall k :: 0 <= k < |LongParagraphs(clean, ps)| ==>
              |LongParagraphs(clean, ps)[k]| > MinParagraph
              && CleanedFrom(clean, ps, LongParagraphs(clean, ps)[k])
  {
    if ps != [] {
      var init := ps[..|ps| - 1];
      var t := clean(ps[|ps| - 1]);
      LongParagraphsLong(clean, init);
      var r := LongParagraphs(clean, ps);
      var r0 := LongParagraphs(clean, init);
      assert r == r0 + (if |t| > MinParagraph then [t] else []);
      forall k | 0 <= k < |r|
        ensures |r[k]| > MinParagraph && CleanedFrom(clean, ps, r[k])
      {
        if k < |r0| {
          assert r[k] == r0[k] && CleanedFrom(clean, init, r0[k]);
          var i :| 0 <= i < |init| && r0[k] == clean(init[i]);
          assert init[i] == ps[i];
        } else {
          assert r[k] == t == clean(ps[|ps| - 1]);
        }
      }
    }
  }

  /** The filter decides paragraph by paragraph: the long paragraphs of two
      runs of paragraphs are those of the first followed by those of the
      second. */
  lemma {:induction false} LongParagraphsAppend(clean: string -> string, a: seq<string>, b: seq<string>)
    ensures LongParagraphs(clean, a + b) == LongParagraphs(clean, a) + LongParagraphs(clean, b)
    decreases |b|
  {
    if b == [] {
      assert a + b == a;
    } else {
      var init := b[..|b| - 1];
      assert (a + b)[..|a + b| - 1] == a + init;
      assert (a + b)[|a + b| - 1] == b[|b| - 1];
      LongParagraphsAppend(clean, a, init);
    }
  }

  /** Paragraph `i` is kept, in its place between the long paragraphs before
      it and those after it, exactly when its cleaned text is longer than
      `MinParagraph`. */
  lemma LongParagraphsAt(clean: string -> string, ps: seq<string>, i: nat)
    requires i < |ps|
    ensures LongParagraphs(clean, ps) ==
              LongParagraphs(clean, ps[..i])
              + (if |clean(ps[i])| > MinParagraph then [clean(ps[i])] else [])
              + LongParagraphs(clean, ps[i + 1..])
  {
    assert ps == ps[..i] + [ps[i]] + ps[i + 1..];
    LongParagraphsAppend(clean, ps[..i] + [ps[i]], ps[i + 1..]);
    LongParagraphsAppend(clean, ps[..i], [ps[i]]);
    assert ([] + [ps[i]])[..0] == [];
    assert LongParagraphs(clean, [ps[i]]) ==
           LongParagraphs(clean, [ps[i]][..0]) + (if |clean(ps[i])| > MinParagraph then [clean(ps[i])] else []);
  }

  /** Every paragraph whose cleaned text is longer than `MinParagraph` is
      kept. */
  lemma LongParagraphsComplete(clean: string -> string, ps: seq<string>)
    ensures forall i :: 0 <= i < |ps| && |clean(ps[i])| > MinParagraph ==>
              clean(ps[i]) in LongParagraphs(clean, ps)
  {
    forall i | 0 <= i < |ps| && |clean(ps[i])| > MinParagraph
      ensures clean(ps[i]) in LongParagraphs(clean, ps)
    {
      LongParagraphsAt(clean, ps, i);
      var before := LongParagraphs(clean, ps[..i]);
      assert LongParagraphs(clean, ps)[|before|] == clean(ps[i]);
    }
  }

  lemma LongParagraphsNormalized(lib: Library, ps: seq<string>)
    ensures forall k :: 0 <= k < |LongParagraphs(ParagraphText(lib), ps)| ==>
              Normalized(LongParagraphs(ParagraphText(lib), ps)[k])
  {
    var r := LongParagraphs(ParagraphText(lib), ps);
    LongParagraphsLong(ParagraphText(lib), ps);
    forall k | 0 <= k < |r| ensures Normalized(r[k]) {
      var i :| 0 <= i < |ps| && r[k] == ParagraphText(lib)(ps[i]);
      CleanNormalized(lib.unescape, ps[i]);
    }
  }

  /** The long paragraphs of a page prefix come first among those of the page. */
  lemma {:induction false} LongParagraphsPrefix(clean: string -> string, ps: seq<string>, n: nat)
    requires n <= |ps|
    ensures LongParagraphs(clean, ps[..n]) <= LongParagraphs(clean, ps)
    decreases |ps| - n
  {
    if n < |ps| {
      LongParagraphsPrefix(clean, ps, n + 1);
      assert ps[..n + 1][..n] == ps[..n];
    } else {
      assert ps[..n] == ps;
    }
  }

  /** Joining non-empty normalized texts with one space keeps them normalized. */
  lemma {:induction false} JoinNormalized(parts: seq<string>)
    requires forall k :: 0 <= k < |parts| ==> parts[k] != [] && Normalized(parts[k])
    ensures Normalized(Join(parts, " "))
    ensures parts != [] ==> Join(parts, " ") != []
  {
    if |parts| > 1 {
      JoinNormalized(parts[1..]);
      var a, b := parts[0], Join(parts[1..], " ");
      NoDoubleSpaceConcat(a, " ");
      NoDoubleSpaceConcat(a + " ", b);
      var j := a + " " + b;
      assert j == Join(parts, " ");
      assert forall i :: 0 <= i < |a| ==> j[i] == a[i];
      assert forall i :: |a| < i < |j| ==> j[i] == b[i - |a| - 1];
      assert j[|a|] == ' ';
    }
  }

  /** A prefix of a string keeps its single-plain-space shape. */
  lemma PrefixKeeps(s: string, p: string)
    requires p <= s
    ensures NoDoubleSpace(s) ==> NoDoubleSpace(p)
    ensures PlainSpaces(s) ==> PlainSpaces(p)
  {
    assert p == s[..|p|];
    if NoDoubleSpace(s) {
      NoDoubleSpaceSlice(s, 0, |p|);
    }
  }

  /** The paragraph fallback: `" ".join(chunks)[:600].strip()`. */
  function ParagraphSummary(lib: Library, ps: seq<string>): (r: string)
    ensures |r| <= MaxPageText
  {
    Strip(PyPrefix(Join(Take(LongParagraphs(ParagraphText(lib), ps), MaxParagraphs), " "), MaxPageText))
  }

  lemma ParagraphSummaryNormalized(lib: Library, ps: seq<string>)
    ensures Normalized(ParagraphSummary(lib, ps))
  {
    var long := LongParagraphs(ParagraphText(lib), ps);
    var chunks := Take(long, MaxParagraphs);
    var joined := Join(chunks, " ");
    LongParagraphsNormalized(lib, ps);
    LongParagraphsLong(ParagraphText(lib), ps);
    assert forall k :: 0 <= k < |chunks| ==> chunks[k] == long[k];
    JoinNormalized(chunks);
    PrefixKeeps(joined, PyPrefix(joined, MaxPageText));
    StripKeeps(PyPrefix(joined, MaxPageText));
  }

  /** `meta_description_getir` on the outcome of fetching the page. */
  function PageDescription(lib: Library, page: Option<Page>): (r: string)
    ensures page.None? ==> r == []
  {
    match page
    case None => []
    case Some(p) =>
      match FirstMetaContent(lib, p.metas, DescriptionSelectors)
      case Some(d) => d
      case None => ParagraphSummary(lib, p.paragraphs)
  }

  /** The page-derived text is always in `temiz_metin` shape. */
  lemma PageDescriptionNormalized(lib: Library, page: Option<Page>)
    ensures Normalized(PageDescription(lib, page))
  {
    if page.Some? {
      var p := page.value;
      var fm := FirstMetaContent(lib, p.metas, DescriptionSelectors);
      if fm.Some? {
        FirstMetaContentNormalized(lib, p.metas, DescriptionSelectors);
      } else {
        ParagraphSummaryNormalized(lib, p.paragraphs);
      }
    }
  }

  /** The description tags in priority order, then the paragraphs. */
  lemma PageDescriptionPriority(lib: Library, p: Page)
    ensures var r := PageDescription(lib, Some(p));
      var name := SelectorContent(lib, p.metas, ByName("description"));
      var og := SelectorContent(lib, p.metas, ByProperty("og:description"));
      var tw := SelectorContent(lib, p.metas, ByName("twitter:description"));
      && (name.Some? ==> r == name.value)
      && (name.None? && og.Some? ==> r == og.value)
      && (name.None? && og.None? && tw.Some? ==> r == tw.value)
      && (name.None? && og.None? && tw.None? ==> r == ParagraphSummary(lib, p.paragraphs))
  {
    var sels := DescriptionSelectors;
    assert sels[0] == ByName("description");
    assert sels[1] == ByProperty("og:description");
    assert sels[2] == ByName("twitter:description");
    var m := p.metas;
    var name := SelectorContent(lib, m, ByName("description"));
    var og := SelectorContent(lib, m, ByProperty("og:description"));
    var tw := SelectorContent(lib, m, ByName("twitter:description"));
    assert sels[1..][0] == sels[1] && sels[1..][1..][0] == sels[2] && sels[1..][1..][1..] == [];
    assert FirstMetaContent(lib, m, sels) ==
           if name.Some? then name else FirstMetaContent(lib, m, sels[1..]);
    assert FirstMetaContent(lib, m, sels[1..]) ==
           if og.Some? then og else FirstMetaContent(lib, m, sels[1..][1..]);
    assert FirstMetaContent(lib, m, sels[1..][1..]) ==
           if tw.Some? then tw else FirstMetaContent(lib, m, sels[1..][1..][1..]);
  }

  /** The selector loop shared by `meta_description_getir` and
      `gorsel_url_bul`: each selector's tag is looked up in turn and the
      first with content that cleans to a non-empty text is returned. */
  method FindFirstMetaContent(lib: Library, metas: seq<Meta>, sels: seq<Selector>)
    returns (r: Option<string>)
    ensures r == FirstMetaContent(lib, metas, sels)
  {
    var i := 0;
    while i < |sels|
      invariant 0 <= i <= |sels|
      invariant FirstMetaContent(lib, metas, sels[i..]) == FirstMetaContent(lib, metas, sels)
    {
      var tag := FindMeta(metas, sels[i]);
      if tag.Some? && tag.value.content != [] {
        var c := Clean(lib.unescape, tag.value.content);
        if c != [] {
          return Some(c);
        }
      }
      assert sels[i..][1..] == sels[i + 1..];
      i := i + 1;
    }
    return None;
  }

  /** One step of the paragraph loop: the next paragraph's cleaned text is
      appended when long enough, and once two are held they are the first
      two long paragraphs of the whole page. */
  lemma CollectStep(clean: string -> string, ps: seq<string>, j: nat, chunks: seq<string>, next: seq<string>)
    requires j < |ps| && chunks == LongParagraphs(clean, ps[..j])
    requires var t := clean(ps[j]); next == chunks + (if |t| > MinParagraph then [t] else [])
    ensures next == LongParagraphs(clean, ps[..j + 1])
    ensures |next| >= MaxParagraphs ==> next[..MaxParagraphs] == Take(LongParagraphs(clean, ps), MaxParagraphs)
  {
    assert next == LongParagraphs(clean, ps[..j + 1]) by {
      assert ps[..j + 1][..j] == ps[..j] && ps[..j + 1][j] == ps[j];
    }
    if |next| >= MaxParagraphs {
      LongParagraphsPrefix(clean, ps, j + 1);
      TakePrefix(next[..MaxParagraphs], LongParagraphs(clean, ps), MaxParagraphs);
    }
  }

  /** The paragraph loop of `meta_description_getir`: cleaned paragraphs
      longer than `MinParagraph` are collected until there are two. */
  method CollectParagraphs(clean: string -> string, ps: seq<string>) returns (chunks: seq<string>)
    ensures chunks == Take(LongParagraphs(clean, ps), MaxParagraphs)
  {
    chunks := [];
    var j := 0;
    assert ps[..0] == [];
    while j < |ps|
      invariant 0 <= j <= |ps|
      invariant chunks == LongParagraphs(clean, ps[..j])
      invariant |chunks| < MaxParagraphs
    {
      var t := clean(ps[j]);
      ghost var before := chunks;
      if t != [] && |t| > MinParagraph {
        chunks := chunks + [t];
      }
      CollectStep(clean, ps, j, before, chunks);
      if |chunks| >= MaxParagraphs {
        assert chunks[..MaxParagraphs] == chunks;
        return;
      }
      j := j + 1;
    }
    assert ps[..j] == ps;
  }

  /** `meta_description_getir` on the outcome of fetching the page. */
  method MetaDescription(lib: Library, page: Option<Page>) returns (d: string)
    ensures d == PageDescription(lib, page)
  {
    if page.None? {
      return [];
    }
    var p := page.value;
    var tag := FindFirstMetaContent(lib, p.metas, DescriptionSelectors);
    if tag.Some? {
      return tag.value;
    }
    var chunks := CollectParagraphs(ParagraphText(lib), p.paragraphs);
    d := Strip(PyPrefix(Join(chunks, " "), MaxPageText));
  }

  /** The raw entry text: `summary`, otherwise `description`. */
  function RawSummary(e: Entry): string
  {
    if e.summary != [] then e.summary else e.description
  }

  /** `html_to_text`: the visible text of a fragment, cleaned. */
  function HtmlToText(lib: Library, h: string): (r: string)
    ensures h == [] ==> r == []
  {
    if h == [] then [] else Clean(lib.unescape, lib.visibleText(h))
  }

  /** The text derived from the entry alone. */
  function EntryText(lib: Library, e: Entry): (r: string)
    ensures RawSummary(e) == [] ==> r == []
  {
    HtmlToText(lib, RawSummary(e))
  }

  /** Whether `ozet_uret` consults the page. */
  predicate ConsultsPage(fetch: bool, text: string)
  {
    fetch && |text| < MinEntryText
  }

  /** The text chosen before the final cleanup: the entry text, replaced by
      the page description only when the page was consulted and the
      description is strictly longer. */
  function ChosenText(lib: Library, e: Entry, fetch: bool, page: Option<Page>): (r: string)
    ensures |r| >= |EntryText(lib, e)|
    ensures r == EntryText(lib, e)
            || (ConsultsPage(fetch, EntryText(lib, e)) && r == PageDescription(lib, page)
                && |r| > |EntryText(lib, e)|)
    ensures !ConsultsPage(fetch, EntryText(lib, e)) ==> r == EntryText(lib, e)
    ensures ConsultsPage(fetch, EntryText(lib, e)) && |PageDescription(lib, page)| > |EntryText(lib, e)| ==>
              r == PageDescription(lib, page)
  {
    var text := EntryText(lib, e);
    if fetch && (text == [] || |text| < MinEntryText) then
      var fetched := PageDescription(lib, page);
      if fetched != [] && |fetched| > |text| then fetched else text
    else text
  }

  /** The final cap: a text longer than `maxLen` becomes its first
      `maxLen - 1` characters, right-stripped, followed by one ellipsis. */
  function Truncate(t: string, maxLen: int): (r: string)
    ensures |t| <= maxLen ==> r == t
    ensures |t| > maxLen ==> r != [] && r[|r| - 1] == Ellipsis && r[..|r| - 1] <= t
                             && (r[..|r| - 1] == [] || !IsSpace(r[|r| - 2]))
    ensures |t| > maxLen && maxLen >= 1 ==>
              |r| <= maxLen && forall i :: |r| - 1 <= i < maxLen - 1 ==> IsSpace(t[i])
  {
    if |t| > maxLen then
      var kept := Rstrip(PyPrefix(t, maxLen - 1));
      RstripSpaces(PyPrefix(t, maxLen - 1));
      assert (kept + [Ellipsis])[..|kept|] == kept;
      kept + [Ellipsis]
    else t
  }

  /** `ozet_uret` with the page given as the outcome of fetching `link`. */
  function Summary(lib: Library, e: Entry, maxLen: int, fetch: bool, page: Option<Page>): (r: string)
    ensures maxLen >= 1 ==> |r| <= maxLen
  {
    Truncate(Clean(lib.unescape, ChosenText(lib, e, fetch, page)), maxLen)
  }

  /** A summary that needs no truncation is the cleaned chosen text itself. */
  lemma SummaryUntruncated(lib: Library, e: Entry, maxLen: int, fetch: bool, page: Option<Page>)
    requires |Clean(lib.unescape, ChosenText(lib, e, fetch, page))| <= maxLen
    ensures Summary(lib, e, maxLen, fetch, page) == Clean(lib.unescape, ChosenText(lib, e, fetch, page))
  {
  }

  /** When the page is not consulted, whatever it holds cannot change the
      summary. */
  lemma SummaryIgnoresPage(lib: Library, e: Entry, maxLen: int, fetch: bool, p1: Option<Page>, p2: Option<Page>)
    requires !ConsultsPage(fetch, EntryText(lib, e))
    ensures Summary(lib, e, maxLen, fetch, p1) == Summary(lib, e, maxLen, fetch, p2)
  {
  }

  /** `ozet_uret`, step by step; `page` is what fetching the link returns. */
  method ResolveSummary(lib: Library, e: Entry, maxLen: int, fetch: bool, page: Option<Page>)
    returns (text: string)
    ensures text == Summary(lib, e, maxLen, fetch, page)
  {
    var raw := [];
    if e.summary != [] {
      raw := e.summary;
    } else if e.description != [] {
      raw := e.description;
    }
    text := HtmlToText(lib, raw);
    if fetch && (text == [] || |text| < MinEntryText) {
      var fetched := MetaDescription(lib, page);
      if fetched != [] && |fetched| > |text| {
        text := fetched;
      }
    }
    text := Clean(lib.unescape, text);
    if |text| > maxLen {
      text := Rstrip(PyPrefix(text, maxLen - 1)) + [Ellipsis];
    }
  }
}
