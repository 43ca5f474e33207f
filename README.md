# auto-news news aggregation, modelled in Dafny

`rapor.py` turns a fixed list of RSS feeds into a weekly security-news report.
The part modelled here is what decides the report's content:

- how feed text is cleaned (`temiz_metin`, `html_to_text`);
- how an entry's date is found (`entry_tarihi`);
- how a summary is built, fetching the article page when the feed's own text is short
  (`ozet_uret`, `meta_description_getir`);
- how the feeds are harvested with a per-source limit, filtered to the last days,
  deduplicated by (title, link) and sorted newest first (`tumunu_cek`,
  `son_gunleri_filtrele`, `tekrarlari_temizle`);
- how an article image is chosen and which downloaded images are kept
  (`gorsel_url_bul`, `gorsel_indir_tmp`).

Modules, one file each:

- `Model`: the entities. Feed entries, meta tags, pages, HTTP responses, feeds and items.
  `Library` holds the functions the program takes from its libraries, left
  uninterpreted: `html.unescape`, `str.lower`, BeautifulSoup's visible text, `urljoin`,
  and `time.mktime` as a partial function to a POSIX timestamp.
- `Text`: `temiz_metin` as `Clean`. It unescapes, collapses every run of Python
  whitespace to one space, and strips.
- `Sequences`: Python's `s[:n]`, and the subsequence relation.
- `Dates`: `entry_tarihi`.
- `Summaries`: `meta_description_getir`, `html_to_text` and `ozet_uret`.
- `Images`: `gorsel_url_bul` and `gorsel_indir_tmp`.
- `Recency`: `son_gunleri_filtrele`, with the current time as a parameter.
- `Dedup`: `tekrarlari_temizle`.
- `Ordering`: `items.sort(key=tarih, reverse=True)`, as a stable insertion sort on an
  array.
- `Pipeline`: `tumunu_cek`.

Each loop of the program is a method.

- Each loop method is proved equal to a specification function, or its ensures give the
  full new state (Ordering.ShiftOlder).
- The properties are proved about that function.

Network fetches are inputs:

- `Option<Page>` is the parsed article page, or `None` when the request or parsing failed.
- `Option<Response>` is an image response.
- `web: string -> Option<Page>` gives the page for each cleaned article link.

Dates are integer POSIX seconds.

## Model

| member | source | states |
|---|---|---|
| Text.NonSpaceAppend | rapor.py:66 | the non-whitespace characters of a concatenation are those of its parts |
| Text.LstripSpaces | rapor.py:66 | `lstrip` removes a prefix made only of whitespace and leaves a text that is empty or starts with a non-space, with the same non-space characters |
| Text.RstripSpaces | rapor.py:66 | `rstrip` removes a suffix made only of whitespace and leaves a text that is empty or ends with a non-space, with the same non-space characters |
| Text.Lstrip | rapor.py:66 | `str.lstrip()` never lengthens, and shortens a text that starts with whitespace (its full contract is LstripSpaces) |
| Text.Rstrip | rapor.py:66 | `str.rstrip()` never lengthens (its full contract is RstripSpaces) |
| Text.Strip | rapor.py:66 | `str.strip()` is `rstrip` of `lstrip`; StripKeeps states what it yields |
| Text.StripKeeps | rapor.py:66 | `strip` gives a trimmed text with the same non-space characters, and keeps the absence of double whitespace and of non-' ' whitespace |
| Text.SliceShape | rapor.py:66 | a slice of a text without double whitespace (or with only ' ' as whitespace) still has that shape |
| Text.NoDoubleSpaceSlice | rapor.py:66 | a slice of a text with no two adjacent whitespace characters has none either |
| Text.NoDoubleSpaceConcat | rapor.py:66 | two texts without double whitespace concatenate to one without it, unless whitespace meets whitespace at the seam |
| Text.Collapse | rapor.py:66 | `re.sub(r"\s+", " ", s)` never lengthens the text; CollapseShape, CollapseText and LeadingWordCollapse state the rest |
| Text.CollapseShape | rapor.py:66 | `re.sub(r"\s+", " ", s)` leaves no two adjacent whitespace characters and only ' ' as whitespace, and starts with a space only if `s` does |
| Text.CollapseText | rapor.py:66 | replacing whitespace runs keeps every non-space character, in order |
| Text.NormalizeNormalized | rapor.py:66 | collapse-then-strip yields a trimmed text with single ' ' separators and the same non-space characters |
| Text.CollapseFixes | rapor.py:66 | a text already without double whitespace and with only ' ' is unchanged by the substitution |
| Text.NormalizeFixes | rapor.py:66 | an already normalised text is unchanged |
| Text.NormalizeIdempotent | rapor.py:66 | collapse-then-strip is idempotent |
| Text.Normalize | rapor.py:66 | `re.sub(r"\s+", " ", s).strip()`; NormalizeNormalized, NormalizeIdempotent and NormalizeWords state what it yields |
| Text.LeadingWord | rapor.py:66 | the first whitespace-free run of a text is no longer than the text, and is non-empty when the text starts with a non-space |
| Text.Words | rapor.py:66 | Python's `s.split()`; WordsShape and NormalizeWords pin it |
| Text.LeadingWordSplit | rapor.py:66 | the leading word is a prefix of the text made only of non-spaces, ended by the end of the text or by whitespace |
| Text.LeadingWordCollapse | rapor.py:66 | collapsing whitespace keeps the leading word and continues after it |
| Text.WordsLstrip | rapor.py:66 | `lstrip` does not change the words of a text |
| Text.WordsShape | rapor.py:66 | every word of `s.split()` is non-empty and holds no whitespace |
| Text.RstripAppend | rapor.py:66 | right-stripping a text whose second part starts with a non-space right-strips only that part |
| Text.RstripSpaceAfter | rapor.py:66 | right-stripping a word followed by one space gives back the word |
| Text.JoinCons | rapor.py:66 | proof helper for NormalizeWords: joining one more word in front adds it and one separator |
| Text.CollapseWords | rapor.py:66 | for a text starting with a non-space, collapsing then right-stripping gives its words joined by single spaces |
| Text.NormalizeWords | rapor.py:66 | `re.sub(r"\s+", " ", s).strip()` equals `" ".join(s.split())`: the same words, in order, separated by single spaces |
| Text.Clean | rapor.py:62-67 | `temiz_metin("")` is `""` |
| Text.CleanNormalized | rapor.py:62-67 | `temiz_metin`'s output is trimmed, has no double whitespace, uses only ' ' as whitespace, and keeps the non-space characters of the unescaped input |
| Text.CleanIdempotent | rapor.py:62-67 | `temiz_metin` applied to its own output gives that output again, for every input whose cleaned text `html.unescape` leaves unchanged (one with no entity reference left) |
| Text.Join | rapor.py:116 | `sep.join(parts)`; JoinCons and JoinNormalized state its shape |
| Text.Contains | rapor.py:181 | Python's `sub in s`, as the MIME-type tests of rapor.py:181, 217, 233 and 235 use it; ContainsAt pins it |
| Text.ContainsAt | rapor.py:217 | `sub in s` holds exactly when `sub` occurs at some position of `s` |
| Text.EndsWith | rapor.py:181 | Python's `s.endswith(suffix)`: the last `len(suffix)` characters are `suffix` |
| Text.PyPrefix | rapor.py:116 | Python's `s[:n]` is a prefix of `s` with `min(n, len(s))` characters for `n >= 0` |
| Sequences.Take | rapor.py:460-462 | taking the first `n` items gives a prefix of length `min(n, len)` |
| Sequences.SubseqTrans | rapor.py:487-488 | "keeps some elements in order" is transitive |
| Sequences.SubseqMembers | rapor.py:487-488 | a subsequence has only members of the original |
| Sequences.SubseqMultiset | rapor.py:487-488 | a subsequence takes no element more often than the original has it |
| Dates.FirstEpoch | rapor.py:80-87 | a found timestamp is the conversion of one of the present candidates |
| Dates.EntryTimestamp | rapor.py:79-87 | `published_parsed` wins when present and convertible; otherwise `updated_parsed`'s conversion, or none |
| Dates.EntryDate | rapor.py:79-87 | the loop with its early return computes `EntryTimestamp` |
| Summaries.FindMeta | rapor.py:102 | `soup.find` returns the first tag matching the selector, and none when no tag matches |
| Summaries.Matches | rapor.py:102 | the attribute filter of `soup.find("meta", {...})`: the tag's `name` or `property` equals the value (also at rapor.py:196); FindMeta is stated over it |
| Summaries.SelectorContent | rapor.py:102-106 | a selector yields only a non-empty cleaned `content` |
| Summaries.FirstMetaContent | rapor.py:97-106 | the selectors are tried in order; a result is non-empty |
| Summaries.FirstMetaContentNormalized | rapor.py:104-106 | a meta description is `temiz_metin`-normal |
| Summaries.ParagraphText | rapor.py:111 | `temiz_metin` of one paragraph's text, the cleaning LongParagraphsNormalized is stated for |
| Summaries.LongParagraphs | rapor.py:110-113 | filtering paragraphs never adds any |
| Summaries.LongParagraphsLong | rapor.py:111-113 | every kept paragraph is longer than 60 characters and is the cleaned text of one of the page's paragraphs (the converse is LongParagraphsComplete and LongParagraphsAt) |
| Summaries.LongParagraphsNormalized | rapor.py:111-113 | every kept paragraph is `temiz_metin`-normal |
| Summaries.LongParagraphsAppend | rapor.py:110-113 | the long paragraphs of two runs of paragraphs are those of each, in order |
| Summaries.LongParagraphsAt | rapor.py:110-113 | paragraph `i` is kept exactly when its cleaned text is longer than 60, between the paragraphs kept before it and after it |
| Summaries.LongParagraphsComplete | rapor.py:110-113 | every paragraph whose cleaned text is longer than 60 characters is kept |
| Summaries.LongParagraphsPrefix | rapor.py:110-115 | the paragraphs kept from a prefix of the page are a prefix of those kept from the whole page |
| Summaries.JoinNormalized | rapor.py:116 | `" ".join` of non-empty normalised parts is normalised, and non-empty when there are parts |
| Summaries.PrefixKeeps | rapor.py:116 | a prefix of a text without double whitespace has none either |
| Summaries.ParagraphSummary | rapor.py:108-116 | the paragraph fallback is at most 600 characters |
| Summaries.ParagraphSummaryNormalized | rapor.py:108-116 | the paragraph fallback is trimmed and single-spaced |
| Summaries.PageDescription | rapor.py:90-118 | a failed fetch gives `""` |
| Summaries.PageDescriptionNormalized | rapor.py:90-118 | whatever `meta_description_getir` returns is trimmed and single-spaced |
| Summaries.PageDescriptionPriority | rapor.py:97-116 | `description`, then `og:description`, then `twitter:description`, then the first two long paragraphs |
| Summaries.FindFirstMetaContent | rapor.py:97-106 | the selector loop with its early return computes `FirstMetaContent` |
| Summaries.CollectStep | rapor.py:110-115 | one paragraph step extends the kept list, and once two are kept they are the first two of the whole page |
| Summaries.CollectParagraphs | rapor.py:108-115 | the paragraph loop with its `break` keeps exactly the first two long paragraphs |
| Summaries.MetaDescription | rapor.py:90-118 | `meta_description_getir` step by step computes `PageDescription` |
| Summaries.HtmlToText | rapor.py:70-76 | `html_to_text("")` is `""` |
| Summaries.RawSummary | rapor.py:122-126 | `entry.summary` when non-empty, otherwise `entry.description`; EntryText and ChosenText are stated over it |
| Summaries.EntryText | rapor.py:122-128 | the entry's own text is empty when neither `summary` nor `description` has any |
| Summaries.ConsultsPage | rapor.py:130 | the page is consulted when fetching is on and the entry text is shorter than 80 (empty included); ChosenText and SummaryIgnoresPage use it |
| Summaries.ChosenText | rapor.py:122-133 | the chosen text is never shorter than the entry text; the page is consulted only when fetching is on and the entry text is shorter than 80; when it is consulted, its description is adopted exactly when it is strictly longer |
| Summaries.Truncate | rapor.py:136-137 | a text within the bound is unchanged; a longer one becomes a right-stripped prefix of its first `max_len - 1` characters plus one ellipsis, at most `max_len` long and removing only whitespace beyond the prefix, for `max_len >= 1` (for `max_len <= 0` Python's negative slice makes the result longer than `max_len`) |
| Summaries.Summary | rapor.py:121-138 | `ozet_uret`'s result is at most `max_len` characters, for `max_len >= 1` (the default is 420) |
| Summaries.SummaryUntruncated | rapor.py:135-138 | proof helper, a corollary of Truncate's contract: a summary within the bound is the cleaned chosen text itself |
| Summaries.SummaryIgnoresPage | rapor.py:130-133 | when the page is not consulted, its content cannot change the summary |
| Summaries.ResolveSummary | rapor.py:121-138 | `ozet_uret`'s step-by-step reassignments compute `Summary` |
| Images.FirstMediaUrl | rapor.py:167-173 | the media URL is that of the first media list whose first element has a non-empty `url`, and none when no list yields |
| Images.MediaYields | rapor.py:167-173 | a media list yields when it is non-empty and its first element has a non-empty `url`; FirstMediaUrl is stated over it |
| Images.FirstEnclosure | rapor.py:176-182 | the enclosure is the first `rel="enclosure"` link with an `href` whose type says image or whose address ends in an image suffix |
| Images.HasImageSuffix | rapor.py:181 | the address ends in `.jpg`, `.jpeg`, `.png` or `.webp`; FirstEnclosure is stated over it |
| Images.IsImageEnclosure | rapor.py:176-182 | a `rel="enclosure"` link with an `href` whose lower-cased type contains `image` or whose lower-cased address has an image suffix |
| Images.PageImage | rapor.py:185-204 | a failed fetch gives `""`; PageImagePriority states the rest |
| Images.ImageUrl | rapor.py:165-204 | `gorsel_url_bul`; ImageUrlPriority and ImageUrlIgnoresPage state its priorities |
| Images.ImageUrlPriority | rapor.py:165-204 | `media_content` wins, then `media_thumbnail`, then the first image enclosure, then the page |
| Images.ImageUrlIgnoresPage | rapor.py:165-183 | once the feed names an image, the page cannot change the result |
| Images.PageImagePriority | rapor.py:185-204 | on the page `og:image`, then `twitter:image`, then `og:image:secure_url`, each resolved against the link with `urljoin`; `""` when none |
| Images.FindMediaUrl | rapor.py:167-173 | the media loop with its early return computes `FirstMediaUrl` |
| Images.FindEnclosure | rapor.py:176-182 | the enclosure loop with its early return computes `FirstEnclosure` |
| Images.FindImageUrl | rapor.py:165-204 | `gorsel_url_bul` step by step computes `ImageUrl` |
| Images.ImageSuffix | rapor.py:232-236 | the suffix is `.png` exactly when the type names png, `.webp` exactly when it names webp but not png, `.jpg` otherwise |
| Images.DownloadImage | rapor.py:207-241 | an image is kept exactly when the URL is non-empty, the request succeeded, the type names an image, the body is non-empty and at most 6 MiB, and the bytes are a valid image; the file then holds the body under the type's suffix |
| Recency.RecentSound | rapor.py:141-143 | the filter keeps items in their order, and every kept item is no older than the cutoff |
| Recency.RecentComplete | rapor.py:141-143 | every item at or after the cutoff is kept as often as it occurs, and no older one is kept |
| Recency.RecentAppend | rapor.py:141-143 | filtering distributes over concatenation |
| Recency.Cutoff | rapor.py:142 | `simdi_utc() - timedelta(days=gun)` in seconds, never after now for `gun >= 0` |
| Recency.Recent | rapor.py:141-143 | the filter never lengthens the list; RecentSound and RecentComplete state what it keeps |
| Dedup.RemoveDuplicates | rapor.py:146-155 | the loop over `seen` computes `Deduplicated` |
| Dedup.DedupSubseq | rapor.py:146-155 | the output keeps some of the items, in their order |
| Dedup.DedupDistinct | rapor.py:146-155 | no output item has a key already seen, and no two output items share a key |
| Dedup.DedupKeys | rapor.py:146-155 | the output's keys are exactly the input's keys that were not already seen |
| Dedup.DedupFirst | rapor.py:146-155 | each kept item is the first input item with its key |
| Dedup.ItemKey | rapor.py:150 | the dedup key is the lower-cased title and the link, both stripped of whitespace at their ends |
| Dedup.DedupFrom | rapor.py:146-155 | deduplicating against a set of seen keys never lengthens the list; DedupDistinct, DedupKeys and DedupFirst state the rest |
| Dedup.Deduplicated | rapor.py:146-155 | `tekrarlari_temizle` never lengthens the list |
| Ordering.InsertMultiset | rapor.py:489 | inserting adds exactly the inserted item |
| Ordering.Insert | rapor.py:489 | one stable insertion step adds one item; InsertMultiset, InsertSorted and InsertWithDate state the rest |
| Ordering.NewestFirst | rapor.py:489 | the sorted list has the input's length; NewestFirstSorted, NewestFirstPermutation and NewestFirstStable state the rest |
| Ordering.InsertSorted | rapor.py:489 | inserting into a newest-first list keeps it newest first |
| Ordering.InsertNotOlder | rapor.py:489 | when an item goes before the last element of a newest-first list, nothing placed before that element is older than it |
| Ordering.InsertWithDate | rapor.py:489 | inserting places the item after every item with the same date |
| Ordering.NewestFirstSorted | rapor.py:489 | the sorted list is ordered by non-increasing date |
| Ordering.NewestFirstPermutation | rapor.py:489 | the sorted list is a permutation of the input |
| Ordering.NewestFirstStable | rapor.py:489 | items with equal dates keep their original order (the sort is stable) |
| Ordering.InsertPosition | rapor.py:489 | inserting after the newer-or-equal prefix and before the strictly older suffix is `Insert` |
| Ordering.NewestFirstStep | rapor.py:489 | proof helper for SortNewestFirst: sorting one more item inserts it into the sorted prefix |
| Ordering.Shifted | rapor.py:489 | shifting a block right by one and writing the item into the gap inserts it |
| Ordering.ShiftOlder | rapor.py:489 | the shifting loop moves each strictly older element one place right and stops at the first newer-or-equal one |
| Ordering.Placed | rapor.py:489 | after the shift, the prefix up to the gap is the insertion into the old prefix and the rest is unchanged |
| Ordering.InsertAt | rapor.py:489 | one insertion step sorts a one-longer prefix and leaves the rest of the array alone |
| Ordering.SortNewestFirst | rapor.py:489 | sorting the array in place leaves `NewestFirst` of its old contents |
| Pipeline.Candidates | rapor.py:460-485 | a feed yields at most one item per entry |
| Pipeline.Candidate | rapor.py:464-484 | the item an entry gives, or none without date, title or link; CandidateEntry states what it carries |
| Pipeline.Quota | rapor.py:460-462 | the per-source limit as a count; a negative limit stops the harvest at once |
| Pipeline.FeedItems | rapor.py:458-485 | a feed contributes at most `limit` items |
| Pipeline.Collected | rapor.py:454-485 | the feeds' contributions concatenated in feed order; CollectedFrom and CollectedPerSource state what it holds |
| Pipeline.Aggregated | rapor.py:453-490 | `tumunu_cek`'s result; AggregatedSorted, AggregatedFromRecent, AggregatedDistinct, AggregatedItems and AggregatedPerSource state what it holds |
| Pipeline.CandidatesAppend | rapor.py:460-485 | the usable entries of two runs of entries are those of each |
| Pipeline.RejectedIgnored | rapor.py:464-471 | an entry without a date, title or link can be removed without changing what the feed contributes, so it does not use up the limit |
| Pipeline.CandidatesFrom | rapor.py:475-484 | every item of a feed is built from one of its entries |
| Pipeline.CandidateEntry | rapor.py:464-484 | an item carries its feed's name, a non-empty cleaned title and link, and its entry's timestamp |
| Pipeline.CandidatesPrefix | rapor.py:460-485 | the items of a prefix of the entries are a prefix of the feed's items |
| Pipeline.CandidatesStep | rapor.py:464-485 | proof helper for HarvestFeed: one more entry adds its item, if it has one |
| Pipeline.HarvestDone | rapor.py:460-462 | stopping at `count >= limit`, or at the end of the entries, gives the first `limit` items |
| Pipeline.MakeItem | rapor.py:464-484 | the inner loop's body, with its `continue`s, computes `Candidate` |
| Pipeline.HarvestFeed | rapor.py:458-485 | the inner loop appends the feed's first `limit` usable entries |
| Pipeline.CollectFeeds | rapor.py:454-485 | the feed loop appends each feed's contribution, feed by feed |
| Pipeline.Aggregate | rapor.py:453-490 | `tumunu_cek` computes `Aggregated`: filter, then dedup, then the sort |
| Pipeline.AggregatedSorted | rapor.py:489-490 | the result is ordered newest first |
| Pipeline.AggregatedFromRecent | rapor.py:487-490 | every result item was harvested and is no older than the cutoff, and no item occurs in the result more often than among the harvested items |
| Pipeline.AggregatedDistinct | rapor.py:488-490 | no two result items share a (title, link) key |
| Pipeline.TwiceCounted | rapor.py:489 | an element found at two positions occurs at least twice |
| Pipeline.DistinctKeysOnce | rapor.py:488 | with distinct keys, an item occurs at most once |
| Pipeline.DistinctKeysPermutation | rapor.py:489 | sorting keeps the keys distinct |
| Pipeline.AggregatedItems | rapor.py:453-490 | every result item comes from an entry of a feed and is that entry's candidate for the feed |
| Pipeline.CollectedFrom | rapor.py:454-485 | every harvested item comes from an entry of a feed and is that entry's candidate for the feed |
| Pipeline.SourceCountAppend | rapor.py:454-485 | per-source counts add up over concatenation |
| Pipeline.SourceCountSubseq | rapor.py:487-488 | filtering or deduplicating never raises a source's count |
| Pipeline.SourceCountInsert | rapor.py:489 | inserting adds one to the inserted item's source only |
| Pipeline.SourceCountSorted | rapor.py:489 | sorting keeps each source's count |
| Pipeline.SourceCountAll | rapor.py:475-485 | a list from one source has that source's count equal to its length |
| Pipeline.SourceCountNone | rapor.py:475-485 | a list without a source has count zero for it |
| Pipeline.FeedItemsSource | rapor.py:458-485 | a feed contributes at most `limit` items, all carrying its name |
| Pipeline.CollectedPerSource | rapor.py:456-485 | with distinct feed names, each source has at most `limit` harvested items, and none when no feed has its name |
| Pipeline.AggregatedPerSource | rapor.py:453-490 | with distinct feed names, each source has at most `limit` items in the report |

## Left out

- HTTP requests, headers, timeouts and `raise_for_status`: every fetch is an input,
  `None` when it fails.
- Parsing with feedparser and BeautifulSoup: feeds arrive as `Feed` values and pages as
  lists of meta tags and paragraph texts.
  - The visible text of HTML, with `script`, `style` and `noscript` removed, is the
    uninterpreted `Library.visibleText`.
  - `soup.find` is the first matching tag, within those lists.
- `html.unescape`, `str.lower`, `urljoin` and `time.mktime` are uninterpreted
  (`Library`). A failing `mktime` is `None`.
  - The datetime and timezone conversion is not modelled; a date is its POSIX timestamp.
- Pillow's `verify()` is the parameter `valid`.
- The temporary file of `gorsel_indir_tmp` is modelled as the suffix and bytes it would
  receive, not as a path.
- `gorsel_indir_tmp`'s streaming read is not modelled: the whole body is given first and
  then checked against 6 MiB, as the source does.
- Entry attributes that are missing or not lists are modelled as empty: `media_content`,
  `media_thumbnail`, `links`, `title`, `link`, `summary`, `description`.
- The clock: `simdi_utc()` is the parameter `now`.
  - `timedelta(days=gun)` is `days * 86400` seconds.
- The DOCX rendering is not part of this model: `fmt_tarih`, the document builders and
  image embedding. Nor are the command line and the feed list (`main`,
  `RSS_KAYNAKLAR`): the feeds are a parameter.
- The source iterates over `RSS_KAYNAKLAR`, whose names are distinct.
  - Pipeline.AggregatedPerSource: the per-source bound is proved under the precondition
    that feed names are distinct.
  - With a repeated name, each feed is still bounded (Pipeline.FeedItemsSource), but
    their sum is not.
- Whitespace is the set of characters for which Python's `str.isspace()` holds. `\s` in a
  `str` pattern and `strip()` both use that set.
- The paragraph filter and the dedup key are written over function parameters (`clean`,
  `key`). They are instantiated with `temiz_metin` and the (lower-cased, stripped title,
  stripped link) key.
- Summaries.PageDescription: returning `""` on any exception is modelled for a failed
  fetch only. Parsing is total on the modelled page.
