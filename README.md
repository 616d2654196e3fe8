# JJWXC metadata source: a Dafny model

The calibre metadata source for JJWXC (晋江文学城) looks a book up on the
site's search pages and fetches each candidate's record from the detail API.
Its logic lives in three places. `JjwxcNovelSearcher.load_novel_urls`
filters, de-duplicates and maps search-result blocks to detail-API URLs.
`JJWXC_NOVEL_Parser.parse_novel` and `NovelLoader.load_novel` turn one API
answer into a record. `JJWXC_CELIBRE.to_metadata` chooses the date format
for the publication date. This project models that logic; everything the
plugin does over the network or through lxml is an input. Only the second
definition of each class in `src/__init__.py` is modelled (lines 178–446):
it replaces the first copy when the module is imported.

Modules:

- `Wrappers`: `Option`, for Python's `None` and for a swallowed exception.
- `PyText`: the Python `str` operations the plugin relies on, with their
  laws.
  - `split` (left to right, so `[-1]` and `[0]` pick the last and first
    piece), `"".join`, `in`, `replace(pat, "")` (one left-to-right pass)
    and `rstrip`.
  - Laws proved: split/join round trip, pieces free of the separator,
    first and last pieces as prefix and suffix, and piece counts.
- `NovelParser`:
  - the record `parse_novel` builds from a decoded API answer and the
    date cell of the novel page;
  - the description builder (a loop, `BuildIntro`);
  - `load_novel`'s status check.
- `NovelSearcher`:
  - `load_novel_urls`, as imperative code: the page loop (`StorePages`)
    and the block loop (`StorePage`) update the insertion-ordered
    `find_dict`, and a final loop builds the URL list (`ApiUrlsOf`). Each
    is proved against a functional specification (`NovelUrls`), and the
    listed properties are proved about that specification.
  - `search_novels`' fan-out.
- `CalibreSource`: the two anchored regular expressions of `to_metadata`.
  The matcher is written the way the regex engine reads the string, and
  is proved equal to a declarative description of `dddd-d+` and
  `dddd-d+-d+`.

Inputs:

- The query is its `title` and `authors`, either of which may be `None`;
  `gbk` says which titles the GBK codec can encode.
- A search page is `FetchFailed` (the request, the read or `etree.HTML`
  raised, or `etree.HTML` returned `None` so that the first `xpath` call
  raised, which the `except: pass` at lines 283–284 turns into "this page
  adds nothing") or `Results(slots)`.
- A slot holds the three XPath text lists for one `div[i]`; a missing
  `div` is a slot of empty lists.
- A detail request is `Raised` or `Answered(status, info, titles)`. The
  outcome of the `i`-th request, for `url`, is `detail(i, url)`, so two
  requests for the same URL may fare differently:
  - `info` is the decoded JSON answer;
  - `titles` is the date cell's `title` attribute list, or `None` when
    fetching or decoding the novel page raised (lines 212–221).

Behaviour of the code worth knowing:

- `"".join(query["authors"])` and `key_title.encode('gbk')` (lines 262–263)
  sit outside the `try`. A missing author list, a missing title, or a title
  GBK cannot encode makes `load_novel_urls`, and so `search_novels`, raise
  (`LoadNovelUrls`, `SearchNovels`).
- A detail request that raises is not dropped. `future.result()` at line
  295 re-raises it and the whole `search_novels` call raises, which the
  model shows as `None` (`SearchNovels`).
- A block is skipped when the text after the last `id=` of its cleaned link
  is empty (line 278). A link ending in `id=` is skipped, a non-empty link
  without `id=` passes the test, and an empty link fails it, so every block
  the page does not have is skipped (`EmptyLinkSkipped`,
  `MissingBlockSkipped`).
- The dictionary key is the book name alone when no author was asked for,
  and `name-author` otherwise (lines 279–282).
- `load_novel` compares the status with 200 and 201 (line 250), but
  `urlopen` (line 249) raises for an error status and follows redirects, so
  only statuses 200–299 reach that test; any other status arrives as
  `Raised` and makes `search_novels` raise.
- `search_novels` asks for 10 pages and `range(1, 10)` requests 9
  (`SearchNovelsPages`).

## Model

| member | source | states |
|---|---|---|
| PyText.SplitJoin | src/__init__.py:232 | joining the pieces of `split(sep)` with `sep` rebuilds the string |
| PyText.SplitPiecesFree | src/__init__.py:206 | no piece of `split(sep)` contains `sep` |
| PyText.SplitLastSpec | src/__init__.py:278 | `split(sep)[-1]` is the suffix after the last `sep`, free of `sep`, and the whole string when there is no `sep` |
| PyText.SplitFirstSpec | src/__init__.py:233 | `split(sep)[0]` is the prefix before the first `sep`, and the whole string when there is none |
| PyText.SplitCharCount | src/__init__.py:232 | splitting on one character gives one more piece than there are occurrences of it |
| PyText.RemoveAllIsJoinOfSplit | src/__init__.py:206 | `replace(pat, "")` equals `"".join(split(pat))` |
| PyText.RemoveCharIsWithout | src/__init__.py:275-277 | removing a one-character pattern keeps every other character, in order |
| PyText.FindIsFirst | src/__init__.py:281 | `in` finds the first occurrence: nothing occurs before it |
| PyText.ContainsIffOccurs | src/__init__.py:281 | `a in b` holds exactly when `a` occurs at some index of `b` |
| PyText.RStripNothing | src/__init__.py:219 | `rstrip(c)` leaves a string without `c` unchanged |
| PyText.RStrip | src/__init__.py:219 | `rstrip(c)` removes exactly the trailing run of `c`: a prefix that does not end in `c`, followed only by `c` |
| NovelParser.NonEmpty | src/__init__.py:207-208 | the kept segments are non-empty segments of the input, no more of them than the input has |
| NovelParser.BuildIntro | src/__init__.py:203-209 | the `intro += j + "\n"` loop builds the description of the segments |
| NovelParser.IntroIsJoin | src/__init__.py:206-209 | the description is `"\n".join` of the non-empty segments plus a final `"\n"`, and empty exactly when no segment is non-empty |
| NovelParser.IntroEndsWithBreak | src/__init__.py:207-209 | the description is empty or ends in a line break |
| NovelParser.IntroLines | src/__init__.py:207-209 | for segments without line breaks, splitting the description on `"\n"` gives the non-empty segments and a final empty piece |
| NovelParser.IntroAvoids | src/__init__.py:207-209 | a pattern without line breaks that no segment holds does not appear in the description, not even across the joins |
| NovelParser.DescriptionSpec | src/__init__.py:203-211 | the description of a raw intro is empty or ends in `"\n"`, holds no `br/`, and is one line per non-empty segment of the `&lt;`/`&gt;`-stripped intro |
| NovelParser.DescriptionLines | src/__init__.py:206-209 | when the stripped intro has no line break, the description's lines are exactly its non-empty segments |
| NovelParser.TagsSpec | src/__init__.py:232 | the tags join back to the tag text with `,`, hold no comma, and number one more than the commas |
| NovelParser.ScoreTextSpec | src/__init__.py:233 | the score text is the prefix before the first `分`, or the whole text without one |
| NovelParser.LastLineSpec | src/__init__.py:219 | the last line is the suffix after the last line break and holds none |
| NovelParser.FirstTokenSpec | src/__init__.py:219 | the first token is the prefix before the first space and holds none |
| NovelParser.AfterColonSpec | src/__init__.py:219 | the date part is the suffix after the last `：` and holds none |
| NovelParser.PubdateSpec | src/__init__.py:217-219 | the extracted date is the text after the last `：` of the first space-separated token of the last line; the `rstrip` removes nothing; the date holds no line break, space or `：` |
| NovelParser.ParseNovel | src/__init__.py:199-240 | `parse_novel` returns the record of the answer and the date cell |
| NovelParser.NovelRecordSpec | src/__init__.py:222-234 | the record's page URL is the page template plus its id; the publisher is 晋江文学城; there is one author; the tags rebuild the tag text; the description ends in a line break (or is empty), holds no `br/`, and is empty without an intro; the score text holds no `分`; the date holds no separator and is empty when the novel page failed |
| NovelParser.LoadNovel | src/__init__.py:246-253 | `load_novel` returns a record exactly for status 200 or 201, and it is the parsed one |
| NovelSearcher.DropBlanks | src/__init__.py:275-277 | cleaning leaves no space, line feed or carriage return, and never lengthens a field |
| NovelSearcher.WithoutBlanks | src/__init__.py:275-277 | the three `replace` calls remove exactly the three blank characters, keeping the others in order |
| NovelSearcher.CleanIsDropBlanks | src/__init__.py:275-277 | the `replace` chain equals dropping the blank characters |
| NovelSearcher.CleanIdempotent | src/__init__.py:275-277 | cleaning a cleaned field changes nothing |
| NovelSearcher.IdOfSpec | src/__init__.py:278 | the id is the text after the last `id=` of the link (the whole link without one) and holds no `id=` |
| NovelSearcher.SlotEntrySpec | src/__init__.py:271-282 | a block is kept exactly when its cleaned link has a non-empty id and the query author is empty or occurs in the cleaned author; the key is the name, or `name-author`; the stored link is the cleaned one |
| NovelSearcher.EmptyLinkSkipped | src/__init__.py:274-278 | a block whose link cleans to nothing has an empty id and is skipped |
| NovelSearcher.MissingBlockSkipped | src/__init__.py:271-278 | a `div[i]` the page does not have yields empty lists and is skipped |
| NovelSearcher.BlankQueryAuthorMatchesNothing | src/__init__.py:262 | the query author is joined but never cleaned, so one holding a blank matches no block |
| NovelSearcher.PagesSearched | src/__init__.py:265 | `range(1, search_pages)`: the pages 1 to `search_pages - 1`, none when `search_pages <= 1` |
| NovelSearcher.SearchNovelsPages | src/__init__.py:291 | `search_novels` requests pages 1 to 9 only |
| NovelSearcher.Upserted | src/__init__.py:264 | storing entries one after another keeps the keys distinct and exactly the keys that have a link |
| NovelSearcher.UpsertedKeys | src/__init__.py:280-282 | a key is stored exactly when some entry has it |
| NovelSearcher.LastWriteWins | src/__init__.py:280-282 | the link stored under a key is that of the last entry with the key |
| NovelSearcher.KeysInFirstInsertionOrder | src/__init__.py:280-282 | of any two listed keys, the one listed first was first inserted first, however often either was overwritten |
| NovelSearcher.KeysCountDistinct | src/__init__.py:264 | there are as many listed keys as stored links |
| NovelSearcher.StoredLinkIsEntryLink | src/__init__.py:280-282 | every stored link is the link of some entry with that key |
| NovelSearcher.StoredLinksHaveIds | src/__init__.py:278 | every stored link has a non-empty id |
| NovelSearcher.ApiUrlsSpec | src/__init__.py:285-287 | one API URL per key, in key order, each the API template applied to the id of the key's link |
| NovelSearcher.StorePage | src/__init__.py:271-282 | the block loop over one page upserts that page's entries into `find_dict` |
| NovelSearcher.ApiUrlsOf | src/__init__.py:285-288 | the final loop maps the stored links to API URLs in key order |
| NovelSearcher.TryPage | src/__init__.py:267-284 | a page whose request, read or parse raised leaves `find_dict` as it was; any other page has its entries stored in order |
| NovelSearcher.StorePages | src/__init__.py:265-284 | the page loop leaves `find_dict` holding the entries of the requested pages, in page order, a failed page adding none |
| NovelSearcher.LoadNovelUrls | src/__init__.py:260-288 | `load_novel_urls` raises exactly when the authors or the title is missing or the title does not encode to GBK; otherwise it returns the API URLs of the dictionary built from the entries of the requested pages |
| NovelSearcher.NovelUrlsSpec | src/__init__.py:278-288 | one URL per distinct key, in first-insertion order, built from the last link stored under the key, whose id is never empty |
| NovelSearcher.NovelUrlsBound | src/__init__.py:265-271 | at most 25 URLs per requested page |
| NovelSearcher.EntriesBound | src/__init__.py:265-271 | at most 25 entries per requested page |
| NovelSearcher.OnlyRequestedPagesMatter | src/__init__.py:265 | the result depends only on the pages 1 to `search_pages - 1` |
| NovelSearcher.RequestAll | src/__init__.py:293-295 | the requests raise exactly when one of them raises; otherwise they give one answer per URL |
| NovelSearcher.ParseAll | src/__init__.py:294-297 | the loop keeps, in order, the record `load_novel` returns for each answer, which is there exactly for status 200 or 201 |
| NovelSearcher.CollectedCount | src/__init__.py:294-297 | no more records than requests, and as many exactly when every request answered 200 or 201 |
| NovelSearcher.AcceptedAtBound | src/__init__.py:294-297 | at most every response is answered with 200 or 201, and all are exactly when each one is |
| NovelSearcher.CollectedExactCount | src/__init__.py:294-297 | there are exactly as many records as responses answered with 200 or 201 |
| NovelSearcher.CollectedSpec | src/__init__.py:294-297 | every record returned is the parsed record of a request that answered 200 or 201 |
| NovelSearcher.CollectedComplete | src/__init__.py:294-297 | the parsed record of every request that answered 200 or 201 is returned |
| NovelSearcher.SearchNovels | src/__init__.py:290-298 | `search_novels` raises when the query cannot be joined and GBK-encoded; otherwise it raises exactly when a detail request for one of the URLs raises, and else returns, in some order, the records of the requests answered 200 or 201 |
| CalibreSource.DigitsEnd | src/__init__.py:419 | the greedy `\d` run from an index stops at the first non-digit |
| CalibreSource.DigitsEndAt | src/__init__.py:419 | a digit run that ends at a non-digit is the greedy run |
| CalibreSource.YearMonthMatch | src/__init__.py:419 | `^\d{4}-\d+$` accepts exactly the strings shaped `dddd-d+`, with one final line break allowed by `$` |
| CalibreSource.FullDateMatch | src/__init__.py:421 | `^\d{4}-\d+-\d+$` accepts exactly the strings shaped `dddd-d+-d+`, with one final line break allowed |
| CalibreSource.ShapesExclusive | src/__init__.py:419-421 | no string has both shapes, so the order of the two tests never matters |
| CalibreSource.PubdateFormatSpec | src/__init__.py:416-422 | year-month for `dddd-d+`, full date for `dddd-d+-d+`, and no date otherwise, the missing and the empty date included |
| CalibreSource.ExtractedPubdateFormat | src/__init__.py:219 | a date extracted by the parser never ends in a line break, so the shapes apply to it as extracted |

## Left out

- Network and file I/O are inputs: `urlopen`/`Request`, `random_user_agent`,
  `gzip.decompress` and the GBK decoding. A search page is given as
  `FetchFailed` or its slots; a detail request as its outcome.
- lxml's `etree.HTML` and the XPath queries. Their text lists are given
  per slot, and the date cell's `title` list is given directly.
- The GBK codec itself: which titles it can encode is an input (`gbk`). The
  `urllib.parse.quote` of the encoded title (line 263) and the search URL it
  goes into only choose which pages are fetched, and the pages are inputs.
- JSON decoding. The answer is given as its decoded fields. A missing key
  raises `KeyError` in `parse_novel`; the model does not represent it.
  `"".join` over a string field is the field itself, so it is not modelled
  as a join.
- NovelSearcher.SearchNovels: the thread pool and `as_completed` are not
  modelled. The result is fixed only up to order, as a multiset.
- NovelParser.ScoreText: the rating is modelled only as the text before
  `分`. The `float(...) / 2.0` and the `ValueError` it raises on a
  non-numeric score are floating point and are left out.
- `datetime.strptime`, its failure and the `log.error` around it. The model
  stops at the chosen format.
- CalibreSource.IsDigit: `\d` is read as the ASCII digits. Python also
  matches other Unicode decimal digits.
- The `source` dictionary constants (lines 235–239), `time.time()`
  latency logging and every `log` call.
- The rest of `to_metadata`: building calibre's `Metadata` from the record.
  Also left out are `identify`'s queue and pool rebuild, cover caching,
  `download_cover`, the plugin options and the `__main__` block.
  These are host plumbing.
- Lines 1–177 of `src/__init__.py`, the superseded first copy of the plugin.
- A search page that fails part-way is not modelled. When `etree.HTML`
  returns `None`, the first `xpath` call (line 272) raises before anything
  is stored; once it returns a document, nothing in the block loop can
  raise. So a page is either wholly lost or wholly read.
