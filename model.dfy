/** The data the aggregation pipeline of rapor.py works on.

    A feed entry, an article page and an image response are the parsed
    shapes that feedparser, BeautifulSoup and requests hand to the
    pipeline; a missing string attribute is the empty string, which every
    use in the source treats exactly like an absent one.  The library
    routines whose semantics are not part of the program are collected in
    `Library` and passed in as plain functions. */
module Model {

  datatype Option<T> = None | Some(value: T)

  newtype byte = x: int | 0 <= x < 256

  /** A `time.struct_time` as feedparser stores it (nine integers). */
  type TimeTuple = seq<int>

  /** External library routines, treated as uninterpreted functions:
      `unescape` is html.unescape, `lower` is str.lower, `visibleText` is
      BeautifulSoup's visible text of an HTML fragment (script, style and
      noscript removed), `urljoin` is urllib's urljoin(base, url), and
      `toEpoch` is datetime.fromtimestamp(time.mktime(t)) in seconds,
      None when the conversion raises. */
  datatype Library = Library(
    unescape: string -> string,
    lower: string -> string,
    visibleText: string -> string,
    urljoin: (string, string) -> string,
    toEpoch: TimeTuple -> Option<int>)

  /** One entry of `media_content` or `media_thumbnail`. */
  datatype MediaRef = MediaRef(url: string)

  /** One entry of an entry's `links` list. */
  datatype Link = Link(rel: string, href: string, mimeType: string)

  /** A raw feed entry, as far as the pipeline reads it.  A media list that
      is missing or not a list is the empty sequence. */
  datatype Entry = Entry(
    title: string,
    link: string,
    summary: string,
    description: string,
    publishedParsed: Option<TimeTuple>,
    updatedParsed: Option<TimeTuple>,
    mediaContent: seq<MediaRef>,
    mediaThumbnail: seq<MediaRef>,
    links: seq<Link>)

  /** A `<meta>` tag of an article page: its `name`, `property` and
      `content` attributes. */
  datatype Meta = Meta(name: string, property: string, content: string)

  /** A fetched article page: its meta tags and the visible text of each
      `<p>` element, in document order. */
  datatype Page = Page(metas: seq<Meta>, paragraphs: seq<string>)

  /** A successful image response: its Content-Type header and its body. */
  datatype Response = Response(contentType: string, body: seq<byte>)

  /** One syndication feed: the source's display name and its entries. */
  datatype Feed = Feed(name: string, entries: seq<Entry>)

  /** `Haber`: one normalized news item.  `date` is in epoch seconds. */
  datatype Item = Item(
    source: string,
    title: string,
    link: string,
    date: int,
    summary: string,
    entry: Entry)
}
