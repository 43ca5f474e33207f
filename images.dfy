/** Article images: `gorsel_url_bul` (where the image URL of an item comes
    from) and `gorsel_indir_tmp` (which downloaded bodies are kept and under
    which file suffix). */
module Images {
  import opened Model
  import opened Text
  import opened Summaries

  /** The meta tags that name an article image, in the order they are tried. */
  const ImageSelectors: seq<Selector> :=
    [ByProperty("og:image"), ByName("twitter:image"), ByProperty("og:image:secure_url")]

  /** The media fields, in the order they are tried. */
  function MediaLists(e: Entry): seq<seq<MediaRef>>
  {
    [e.mediaContent, e.mediaThumbnail]
  }

  /** A media list yields when it is non-empty and its first element has a
      non-empty `url`. */
  predicate MediaYields(arr: seq<MediaRef>)
  {
    arr != [] && arr[0].url != []
  }

  /** The raw `url` of the first media list that yields. */
  function FirstMediaUrl(lists: seq<seq<MediaRef>>): (r: Option<string>)
    ensures r.Some? ==> exists i :: 0 <= i < |lists| && MediaYields(lists[i]) && r.value == lists[i][0].url
                           && forall j :: 0 <= j < i ==> !MediaYields(lists[j])
    ensures r.None? ==> forall i :: 0 <= i < |lists| ==> !MediaYields(lists[i])
  {
    if lists == [] then None
    else if MediaYields(lists[0]) then Some(lists[0][0].url)
    else
      var r := FirstMediaUrl(lists[1..]);
      assert forall i :: 1 <= i < |lists| ==> lists[i] == lists[1..][i - 1];
      r
  }

  /** `href.lower().endswith((".jpg", ".jpeg", ".png", ".webp"))`. */
  predicate HasImageSuffix(s: string)
  {
    EndsWith(s, ".jpg") || EndsWith(s, ".jpeg") || EndsWith(s, ".png") || EndsWith(s, ".webp")
  }

  /** An enclosure link that points at an image: by its lower-cased MIME type
      or by the suffix of its lower-cased address. */
  predicate IsImageEnclosure(lib: Library, l: Link)
  {
    l.rel == "enclosure" && l.href != []
    && (Contains(lib.lower(l.mimeType), "image") || HasImageSuffix(lib.lower(l.href)))
  }

  /** The `href` of the first image enclosure. */
  function FirstEnclosure(lib: Library, links: seq<Link>): (r: Option<string>)
    ensures r.Some? ==> exists i :: 0 <= i < |links| && IsImageEnclosure(lib, links[i]) && r.value == links[i].href
                           && forall j :: 0 <= j < i ==> !IsImageEnclosure(lib, links[j])
    ensures r.None? ==> forall i :: 0 <= i < |links| ==> !IsImageEnclosure(lib, links[i])
  {
    if links == [] then None
    else if IsImageEnclosure(lib, links[0]) then Some(links[0].href)
    else
      var r := FirstEnclosure(lib, links[1..]);
      assert forall i :: 1 <= i < |links| ==> links[i] == links[1..][i - 1];
      r
  }

  /** The page step: the first image tag whose content cleans to a non-empty
      text, resolved against the article link; "" when the page could not be
      fetched or names no image. */
  function PageImage(lib: Library, link: string, page: Option<Page>): (r: string)
    ensures page.None? ==> r == []
  {
    match page
    case None => []
    case Some(p) =>
      match FirstMetaContent(lib, p.metas, ImageSelectors)
      case Some(u) => lib.urljoin(link, u)
      case None => []
  }

  /** `gorsel_url_bul`; `page` is the outcome of fetching `link`. */
  function ImageUrl(lib: Library, e: Entry, link: string, page: Option<Page>): string
  {
    match FirstMediaUrl(MediaLists(e))
    case Some(u) => Clean(lib.unescape, u)
    case None =>
      match FirstEnclosure(lib, e.links)
      case Some(h) => Clean(lib.unescape, h)
      case None => PageImage(lib, link, page)
  }

  /** Strict priority: `media_content`, then `media_thumbnail`, then the first
      image enclosure, then the page; the page is only ever looked at when
      neither of the feed's own sources yields. */
  lemma ImageUrlPriority(lib: Library, e: Entry, link: string, page: Option<Page>)
    ensures MediaYields(e.mediaContent) ==>
              ImageUrl(lib, e, link, page) == Clean(lib.unescape, e.mediaContent[0].url)
    ensures !MediaYields(e.mediaContent) && MediaYields(e.mediaThumbnail) ==>
              ImageUrl(lib, e, link, page) == Clean(lib.unescape, e.mediaThumbnail[0].url)
    ensures !MediaYields(e.mediaContent) && !MediaYields(e.mediaThumbnail) ==>
              ImageUrl(lib, e, link, page) ==
                (match FirstEnclosure(lib, e.links)
                 case Some(h) => Clean(lib.unescape, h)
                 case None => PageImage(lib, link, page))
  {
    var lists := MediaLists(e);
    assert lists[0] == e.mediaContent && lists[1] == e.mediaThumbnail;
    assert lists[1..][0] == e.mediaThumbnail && lists[1..][1..] == [];
  }

  /** Whatever the page holds cannot change the result once the feed itself
      names an image. */
  lemma ImageUrlIgnoresPage(lib: Library, e: Entry, link: string, p1: Option<Page>, p2: Option<Page>)
    requires MediaYields(e.mediaContent) || MediaYields(e.mediaThumbnail)
             || exists i :: 0 <= i < |e.links| && IsImageEnclosure(lib, e.links[i])
    ensures ImageUrl(lib, e, link, p1) == ImageUrl(lib, e, link, p2)
  {
    ImageUrlPriority(lib, e, link, p1);
    ImageUrlPriority(lib, e, link, p2);
  }

  /** The image tags in priority order. */
  lemma PageImagePriority(lib: Library, link: string, p: Page)
    ensures var r := PageImage(lib, link, Some(p));
      var og := SelectorContent(lib, p.metas, ByProperty("og:image"));
      var tw := SelectorContent(lib, p.metas, ByName("twitter:image"));
      var sec := SelectorContent(lib, p.metas, ByProperty("og:image:secure_url"));
      && (og.Some? ==> r == lib.urljoin(link, og.value))
      && (og.None? && tw.Some? ==> r == lib.urljoin(link, tw.value))
      && (og.None? && tw.None? && sec.Some? ==> r == lib.urljoin(link, sec.value))
      && (og.None? && tw.None? && sec.None? ==> r == [])
  {
    var sels := ImageSelectors;
    var m := p.metas;
    var og := SelectorContent(lib, m, ByProperty("og:image"));
    var tw := SelectorContent(lib, m, ByName("twitter:image"));
    var sec := SelectorContent(lib, m, ByProperty("og:image:secure_url"));
    assert sels[0] == ByProperty("og:image");
    assert sels[1..][0] == ByName("twitter:image");
    assert sels[1..][1..][0] == ByProperty("og:image:secure_url") && sels[1..][1..][1..] == [];
    assert FirstMetaContent(lib, m, sels) ==
           if og.Some? then og else FirstMetaContent(lib, m, sels[1..]);
    assert FirstMetaContent(lib, m, sels[1..]) ==
           if tw.Some? then tw else FirstMetaContent(lib, m, sels[1..][1..]);
    assert FirstMetaContent(lib, m, sels[1..][1..]) ==
           if sec.Some? then sec else FirstMetaContent(lib, m, sels[1..][1..][1..]);
  }

  /** The media loop of `gorsel_url_bul`: the first list whose first
      element has a non-empty `url`. */
  method FindMediaUrl(lists: seq<seq<MediaRef>>) returns (u: Option<string>)
    ensures u == FirstMediaUrl(lists)
  {
    var i := 0;
    while i < |lists|
      invariant 0 <= i <= |lists|
      invariant FirstMediaUrl(lists[i..]) == FirstMediaUrl(lists)
    {
      var arr := lists[i];
      if arr != [] && arr[0].url != [] {
        return Some(arr[0].url);
      }
      assert lists[i..][1..] == lists[i + 1..];
      i := i + 1;
    }
    return None;
  }

  /** The enclosure loop of `gorsel_url_bul`. */
  method FindEnclosure(lib: Library, links: seq<Link>) returns (h: Option<string>)
    ensures h == FirstEnclosure(lib, links)
  {
    var k := 0;
    while k < |links|
      invariant 0 <= k <= |links|
      invariant FirstEnclosure(lib, links[k..]) == FirstEnclosure(lib, links)
    {
      var l := links[k];
      if l.rel == "enclosure" {
        var href := l.href;
        var typ := lib.lower(l.mimeType);
        if href != [] && (Contains(typ, "image") || HasImageSuffix(lib.lower(href))) {
          return Some(href);
        }
      }
      assert links[k..][1..] == links[k + 1..];
      k := k + 1;
    }
    return None;
  }

  /** `gorsel_url_bul`: media, then enclosures, then the page, each step
      returning as soon as it yields. */
  method FindImageUrl(lib: Library, e: Entry, link: string, page: Option<Page>) returns (url: string)
    ensures url == ImageUrl(lib, e, link, page)
  {
    var media := FindMediaUrl(MediaLists(e));
    if media.Some? {
      return Clean(lib.unescape, media.value);
    }
    var enclosure := FindEnclosure(lib, e.links);
    if enclosure.Some? {
      return Clean(lib.unescape, enclosure.value);
    }
    if page.None? {
      return [];
    }
    var u := FindFirstMetaContent(lib, page.value.metas, ImageSelectors);
    if u.Some? {
      return lib.urljoin(link, u.value);
    }
    return [];
  }

  /** Bodies larger than 6 MiB are refused. */
  const MaxImageBytes: nat := 6 * 1024 * 1024

  /** A kept image: the suffix of the temporary file and the bytes written. */
  datatype TempImage = TempImage(suffix: string, content: seq<byte>)

  /** The file suffix for a lower-cased content type: ".png" wins over
      ".webp", and anything else is stored as ".jpg". */
  function ImageSuffix(ctype: string): (r: string)
    ensures r == ".png" || r == ".webp" || r == ".jpg"
    ensures r == ".png" <==> Contains(ctype, "png")
    ensures r == ".webp" <==> !Contains(ctype, "png") && Contains(ctype, "webp")
  {
    if Contains(ctype, "png") then ".png"
    else if Contains(ctype, "webp") then ".webp"
    else ".jpg"
  }

  /** `gorsel_indir_tmp`: `resp` is the outcome of the request (`None` for any
      failure the source catches) and `valid` stands for Pillow's check of
      the bytes.  The result is the temporary file that would be written. */
  function DownloadImage(lib: Library, url: string, resp: Option<Response>, valid: seq<byte> -> bool)
    : (r: Option<TempImage>)
    ensures r.Some? <==>
              url != [] && resp.Some? && Contains(lib.lower(resp.value.contentType), "image")
              && 0 < |resp.value.body| <= MaxImageBytes && valid(resp.value.body)
    ensures r.Some? ==> r.value.content == resp.value.body
                        && r.value.suffix == ImageSuffix(lib.lower(resp.value.contentType))
  {
    if url == [] then None
    else match resp
      case None => None
      case Some(res) =>
        var ctype := lib.lower(res.contentType);
        if !Contains(ctype, "image") then None
        else if res.body == [] then None
        else if |res.body| > MaxImageBytes then None
        else if !valid(res.body) then None
        else Some(TempImage(ImageSuffix(ctype), res.body))
  }
}
