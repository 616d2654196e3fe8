/** `JjwxcNovelSearcher.load_novel_urls` and `search_novels`: candidate
    filtering and de-duplication over the search result pages, the mapping of
    the surviving links to detail-API URLs, and the collection of the parsed
    records.  The HTTP requests and the XPath queries are outside the model:
    a page arrives as the fragments its queries return (or as a failure), and
    a detail request as its outcome. */
module NovelSearcher {
  import opened Wrappers
  import opened PyText
  import opened NovelParser

  /** `JJWXC_NOVEL_API` without its `%s`. */
  const ApiUrlPrefix: String := "https://app.jjwxc.net/androidapi/novelbasicinfo?novelId="

  /** The `search_pages` argument `search_novels` passes. */
  const SearchPages: int := 10

  /** Result blocks are read at `div[2]` up to, but not including, `div[27]`. */
  const FirstSlot: int := 2
  const SlotEnd: int := 27

  /** What the three XPath queries return for one result block: the text
      fragments of the title link, the link targets, the author's text. */
  datatype Slot = Slot(nameTexts: seq<String>, hrefs: seq<String>, authorTexts: seq<String>)

  /** One search page: `FetchFailed` when fetching or parsing it raised,
      otherwise its result blocks, `slots[k]` being block `div[k + 2]`. */
  datatype Page = FetchFailed | Results(slots: seq<Slot>)

  /** One candidate that survived the filter: its dictionary key and link. */
  datatype Entry = Entry(key: String, url: String)

  /** `find_dict`: the keys in first-insertion order, and the link stored
      under each key. */
  datatype FindDict = FindDict(keys: seq<String>, urls: map<String, String>)

  /** Block `div[i]`; a block the page does not have yields no fragments. */
  function SlotAt(slots: seq<Slot>, i: int): Slot
  {
    if FirstSlot <= i < |slots| + FirstSlot then slots[i - FirstSlot] else Slot([], [], [])
  }

  // ------------------------------------------------------------ cleaning

  predicate IsBlank(c: char)
  {
    c == ' ' || c == '\n' || c == '\r'
  }

  /** `.replace(" ", "").replace("\n", "").replace("\r", "")` */
  function Clean(s: String): String
  {
    RemoveAll(RemoveAll(RemoveAll(s, " "), "\n"), "\r")
  }

  /** The characters of `s` that are not blanks, in their original order. */
  function DropBlanks(s: String): (r: String)
    ensures |r| <= |s|
    ensures forall i :: 0 <= i < |r| ==> !IsBlank(r[i])
  {
    if s == [] then [] else (if IsBlank(s[0]) then [] else [s[0]]) + DropBlanks(s[1..])
  }

  lemma {:induction false} WithoutAppend(a: String, b: String, c: char)
    ensures Without(a + b, c) == Without(a, c) + Without(b, c)
  {
    if a != [] {
      WithoutAppend(a[1..], b, c);
      assert (a + b)[1..] == a[1..] + b;
    } else {
      assert a + b == b;
    }
  }

  lemma {:induction false} WithoutBlanks(s: String)
    ensures Without(Without(Without(s, ' '), '\n'), '\r') == DropBlanks(s)
  {
    if s != [] {
      WithoutBlanks(s[1..]);
      var h := [s[0]];
      assert s == h + s[1..];
      WithoutAppend(h, s[1..], ' ');
      WithoutAppend(Without(h, ' '), Without(s[1..], ' '), '\n');
      WithoutAppend(Without(Without(h, ' '), '\n'), Without(Without(s[1..], ' '), '\n'), '\r');
      assert Without(h, ' ') == if s[0] == ' ' then [] else h;
    }
  }

  /** Cleaning removes exactly the blanks and keeps every other character in
      its order. */
  lemma CleanIsDropBlanks(s: String)
    ensures Clean(s) == DropBlanks(s)
  {
    var a := RemoveAll(s, " ");
    var b := RemoveAll(a, "\n");
    RemoveCharIsWithout(s, ' ');
    assert " " == [' '];
    RemoveCharIsWithout(a, '\n');
    assert "\n" == ['\n'];
    RemoveCharIsWithout(b, '\r');
    assert "\r" == ['\r'];
    WithoutBlanks(s);
  }

  /** A text without blanks is left as it is, so cleaning twice is cleaning once. */
  lemma {:induction false} DropBlanksKeepsClean(s: String)
    requires forall i :: 0 <= i < |s| ==> !IsBlank(s[i])
    ensures DropBlanks(s) == s
  {
    if s != [] {
      DropBlanksKeepsClean(s[1..]);
    }
  }

  lemma CleanIdempotent(s: String)
    ensures Clean(Clean(s)) == Clean(s)
  {
    CleanIsDropBlanks(s);
    CleanIsDropBlanks(Clean(s));
    DropBlanksKeepsClean(DropBlanks(s));
  }

  // ------------------------------------------------------------ one slot

  /** `url.split("id=")[-1]`: the novel id a link ends with. */
  function IdOf(url: String): String
  {
    Last(Split(url, "id="))
  }

  /** The id is the text after the last `id=` of the link (the whole link
      when it has none), and holds no `id=` of its own. */
  lemma IdOfSpec(url: String)
    ensures var id := IdOf(url);
      && |id| <= |url| && id == url[|url| - |id|..] && !Contains(id, "id=")
      && (Contains(url, "id=") ==> OccursAt(url, "id=", |url| - |id| - 3))
      && (!Contains(url, "id=") ==> id == url)
  {
    SplitLastSpec(url, "id=");
  }

  /** What the loop body does with block `slot`: clean the three fields, drop
      the block when its link has an empty id, and otherwise keep it under
      the name (no query author) or under `name-author` when the query author
      occurs in the author. */
  function SlotEntry(keyAuthor: String, slot: Slot): Option<Entry>
  {
    var name := Clean(Join("", slot.nameTexts));
    var url := Clean(Join("", slot.hrefs));
    var author := Clean(Join("", slot.authorTexts));
    if |IdOf(url)| == 0 then None
    else if |keyAuthor| == 0 then Some(Entry(name, url))
    else if Contains(author, keyAuthor) then Some(Entry(name + "-" + author, url))
    else None
  }

  /** A block is kept exactly when its cleaned link has a non-empty id and
      either no author was asked for or the asked author occurs in the
      cleaned author; the kept link is blank-free and ends with that id. */
  lemma SlotEntrySpec(keyAuthor: String, slot: Slot)
    ensures var name := Clean(Join("", slot.nameTexts));
      var url := Clean(Join("", slot.hrefs));
      var author := Clean(Join("", slot.authorTexts));
      var e := SlotEntry(keyAuthor, slot);
      && (e.Some? <==> |IdOf(url)| > 0 && (keyAuthor == "" || Contains(author, keyAuthor)))
      && (e.Some? ==> e.value.url == url && IdOf(e.value.url) != [])
      && (e.Some? && keyAuthor == "" ==> e.value.key == name)
      && (e.Some? && keyAuthor != "" ==> e.value.key == name + "-" + author)
      && (e.Some? ==> forall i :: 0 <= i < |e.value.url| ==> !IsBlank(e.value.url[i]))
  {
    CleanIsDropBlanks(Join("", slot.hrefs));
  }

  /** A link that cleans to nothing has an empty id, so its block is
      skipped, whatever its name and author. */
  lemma EmptyLinkSkipped(keyAuthor: String, slot: Slot)
    requires Clean(Join("", slot.hrefs)) == ""
    ensures SlotEntry(keyAuthor, slot) == None
  {
    assert Split("", "id=") == [""];
  }

  /** A block the page does not have is skipped. */
  lemma MissingBlockSkipped(keyAuthor: String, slots: seq<Slot>, i: int)
    requires !(FirstSlot <= i < |slots| + FirstSlot)
    ensures SlotEntry(keyAuthor, SlotAt(slots, i)) == None
  {
    EmptyLinkSkipped(keyAuthor, SlotAt(slots, i));
  }

  /** Candidate authors are cleaned but the query author is not: a query
      author holding a blank matches no block at all. */
  lemma BlankQueryAuthorMatchesNothing(keyAuthor: String, slot: Slot, i: int)
    requires 0 <= i < |keyAuthor| && IsBlank(keyAuthor[i])
    ensures SlotEntry(keyAuthor, slot) == None
  {
    var author := Clean(Join("", slot.authorTexts));
    CleanIsDropBlanks(Join("", slot.authorTexts));
    ContainsCharsIf(author, keyAuthor);
    assert keyAuthor[i] in keyAuthor && keyAuthor[i] !in author;
  }

  // ------------------------------------------------------------ all pages

  function OptionToSeq(o: Option<Entry>): (r: seq<Entry>)
    ensures |r| <= 1
  {
    if o.Some? then [o.value] else []
  }

  /** The entries blocks `div[2]` .. `div[n - 1]` of a page produce, in order. */
  function SlotEntries(keyAuthor: String, slots: seq<Slot>, n: int): (es: seq<Entry>)
    ensures |es| <= if n <= FirstSlot then 0 else n - FirstSlot
    decreases n
  {
    if n <= FirstSlot then []
    else SlotEntries(keyAuthor, slots, n - 1) + OptionToSeq(SlotEntry(keyAuthor, SlotAt(slots, n - 1)))
  }

  /** The entries one page produces; a failed page produces none. */
  function PageEntries(keyAuthor: String, page: Page): seq<Entry>
  {
    match page
    case FetchFailed => []
    case Results(slots) => SlotEntries(keyAuthor, slots, SlotEnd)
  }

  /** `range(1, searchPages)`: the page numbers requested. */
  function PagesSearched(searchPages: int): (r: seq<int>)
    ensures |r| == if searchPages <= 1 then 0 else searchPages - 1
    ensures forall k :: 0 <= k < |r| ==> r[k] == k + 1
  {
    if searchPages <= 1 then [] else PagesSearched(searchPages - 1) + [searchPages - 1]
  }

  /** The entries the requested pages produce, page after page. */
  function EntriesOf(keyAuthor: String, fetch: int -> Page, pages: seq<int>): seq<Entry>
  {
    if pages == [] then []
    else EntriesOf(keyAuthor, fetch, pages[..|pages| - 1]) + PageEntries(keyAuthor, fetch(Last(pages)))
  }

  // ------------------------------------------------------------ the dictionary

  /** Keys are distinct and are exactly the keys that have a link. */
  ghost predicate Valid(d: FindDict)
  {
    && (forall i, j :: 0 <= i < j < |d.keys| ==> d.keys[i] != d.keys[j])
    && (forall k :: k in d.urls <==> k in d.keys)
  }

  /** `find_dict[e.key] = e.url` */
  function Put(d: FindDict, e: Entry): FindDict
  {
    FindDict(if e.key in d.urls then d.keys else d.keys + [e.key], d.urls[e.key := e.url])
  }

  /** The dictionary after the entries are stored one after another. */
  function Upserted(es: seq<Entry>): (d: FindDict)
    ensures Valid(d)
    ensures |d.keys| <= |es|
  {
    if es == [] then FindDict([], map[])
    else Put(Upserted(es[..|es| - 1]), Last(es))
  }

  lemma UpsertedSnoc(es: seq<Entry>, e: Entry)
    ensures Upserted(es + [e]) == Put(Upserted(es), e)
  {
    assert (es + [e])[..|es|] == es;
  }

  /** A key is stored exactly when some entry has it. */
  lemma {:induction false} UpsertedKeys(es: seq<Entry>, k: String)
    ensures k in Upserted(es).urls <==> exists j :: 0 <= j < |es| && es[j].key == k
  {
    if es != [] {
      var init := es[..|es| - 1];
      UpsertedKeys(init, k);
      if exists j :: 0 <= j < |init| && init[j].key == k {
        var j :| 0 <= j < |init| && init[j].key == k;
        assert es[j].key == k;
      }
      if exists j :: 0 <= j < |es| && es[j].key == k {
        var j :| 0 <= j < |es| && es[j].key == k;
        if j < |init| {
          assert init[j].key == k;
        }
      }
    }
  }

  /** Last write wins: the link stored under a key is the one of the last
      entry with that key. */
  lemma {:induction false} LastWriteWins(es: seq<Entry>, j: int)
    requires 0 <= j < |es|
    requires forall j' :: j < j' < |es| ==> es[j'].key != es[j].key
    ensures es[j].key in Upserted(es).urls
    ensures Upserted(es).urls[es[j].key] == es[j].url
  {
    if j < |es| - 1 {
      var init := es[..|es| - 1];
      assert init[j] == es[j];
      LastWriteWins(init, j);
    }
  }

  /** The index of the first entry with key `k`, or -1 when there is none. */
  function FirstIndex(es: seq<Entry>, k: String): (r: int)
    ensures -1 <= r < |es|
    ensures r >= 0 ==> es[r].key == k && forall j :: 0 <= j < r ==> es[j].key != k
    ensures r < 0 ==> forall j :: 0 <= j < |es| ==> es[j].key != k
  {
    if es == [] then -1
    else
      var r := FirstIndex(es[..|es| - 1], k);
      if r >= 0 then r else if Last(es).key == k then |es| - 1 else -1
  }

  /** A key already stored before the last entry was first seen before it. */
  lemma FirstIndexOfStored(es: seq<Entry>, k: String)
    requires es != [] && k in Upserted(es[..|es| - 1]).urls
    ensures 0 <= FirstIndex(es, k) == FirstIndex(es[..|es| - 1], k)
  {
    UpsertedKeys(es[..|es| - 1], k);
  }

  /** A key the last entry adds is first seen at that entry. */
  lemma FirstIndexOfNew(es: seq<Entry>)
    requires es != [] && Last(es).key !in Upserted(es[..|es| - 1]).urls
    ensures FirstIndex(es, Last(es).key) == |es| - 1
  {
    UpsertedKeys(es[..|es| - 1], Last(es).key);
  }

  /** Keys keep the order in which they were first inserted: of two listed
      keys, the earlier one was first seen earlier, whatever later writes did
      to their links. */
  lemma {:induction false} KeysInFirstInsertionOrder(es: seq<Entry>, p: int, q: int)
    requires 0 <= p < q < |Upserted(es).keys|
    ensures 0 <= FirstIndex(es, Upserted(es).keys[p]) < FirstIndex(es, Upserted(es).keys[q])
    decreases |es|
  {
    var init := es[..|es| - 1];
    var d0, d := Upserted(init), Upserted(es);
    assert d.keys[p] == d0.keys[p] && d0.keys[p] in d0.keys;
    FirstIndexOfStored(es, d0.keys[p]);
    if q < |d0.keys| {
      assert d.keys[q] == d0.keys[q] && d0.keys[q] in d0.keys;
      KeysInFirstInsertionOrder(init, p, q);
      FirstIndexOfStored(es, d0.keys[q]);
    } else {
      FirstIndexOfNew(es);
    }
  }

  /** The number of stored keys is the number of distinct keys. */
  lemma {:induction false} KeysCountDistinct(es: seq<Entry>)
    ensures |Upserted(es).keys| == |Upserted(es).urls|
  {
    if es != [] {
      KeysCountDistinct(es[..|es| - 1]);
    }
  }

  // ------------------------------------------------------------ the URLs

  /** `[JJWXC_NOVEL_API % v.split("id=")[-1] for v in find_dict.values()]` */
  function ApiUrls(keys: seq<String>, urls: map<String, String>): seq<String>
    requires forall i :: 0 <= i < |keys| ==> keys[i] in urls
  {
    if keys == [] then []
    else ApiUrls(keys[..|keys| - 1], urls) + [ApiUrlPrefix + IdOf(urls[Last(keys)])]
  }

  lemma {:induction false} ApiUrlsSpec(keys: seq<String>, urls: map<String, String>)
    requires forall i :: 0 <= i < |keys| ==> keys[i] in urls
    ensures |ApiUrls(keys, urls)| == |keys|
    ensures forall j :: 0 <= j < |keys| ==> ApiUrls(keys, urls)[j] == ApiUrlPrefix + IdOf(urls[keys[j]])
  {
    if keys != [] {
      var init := keys[..|keys| - 1];
      ApiUrlsSpec(init, urls);
      assert forall j :: 0 <= j < |init| ==> init[j] == keys[j];
    }
  }

  /** The URLs `load_novel_urls(query, searchPages)` returns for a query
      whose authors are `authors`. */
  function NovelUrls(authors: seq<String>, fetch: int -> Page, searchPages: int): seq<String>
  {
    var d := Upserted(EntriesOf(Join("", authors), fetch, PagesSearched(searchPages)));
    ApiUrls(d.keys, d.urls)
  }

  /** The block loop of `load_novel_urls` over one fetched page: each block
      that survives the filter is stored in `find_dict`. */
  method StorePage(keyAuthor: String, slots: seq<Slot>, findDict: FindDict, ghost before: seq<Entry>)
    returns (updated: FindDict)
    requires findDict == Upserted(before)
    ensures updated == Upserted(before + PageEntries(keyAuthor, Results(slots)))
  {
    updated := findDict;
    assert before + SlotEntries(keyAuthor, slots, FirstSlot) == before;
    for i := FirstSlot to SlotEnd
      invariant updated == Upserted(before + SlotEntries(keyAuthor, slots, i))
    {
      var e := SlotEntry(keyAuthor, SlotAt(slots, i));
      StepEntries(keyAuthor, slots, i, before);
      if e.Some? {
        updated := Put(updated, e.value);
      }
    }
  }

  /** The final loop of `load_novel_urls`: one detail-API URL per stored
      link, in key order. */
  method ApiUrlsOf(findDict: FindDict) returns (urls: seq<String>)
    requires Valid(findDict)
    ensures urls == ApiUrls(findDict.keys, findDict.urls)
  {
    var keys := findDict.keys;
    urls := [];
    for j := 0 to |keys|
      invariant urls == ApiUrls(keys[..j], findDict.urls)
    {
      urls := urls + [ApiUrlPrefix + IdOf(findDict.urls[keys[j]])];
      assert keys[..j + 1][..j] == keys[..j];
    }
    assert keys[..|keys|] == keys;
  }

  /** The `query` dictionary `identify` passes; calibre may leave the title
      or the authors `None`. */
  datatype Query = Query(title: Option<String>, authors: Option<seq<String>>)

  /** Whether the two statements before the page loop, which no `try`
      guards, go through: `"".join(None)` raises, and so does `encode('gbk')`
      of a missing title or of one GBK cannot encode. `gbk` says which
      titles GBK can encode. */
  predicate QueryEncodes(query: Query, gbk: String -> bool)
  {
    query.authors.Some? && query.title.Some? && gbk(query.title.value)
  }

  /** The `try` around one page: a page whose fetch or parse raised adds
      nothing, any other page has its blocks stored. */
  method TryPage(keyAuthor: String, fetched: Page, findDict: FindDict, ghost before: seq<Entry>)
    returns (updated: FindDict)
    requires findDict == Upserted(before)
    ensures updated == Upserted(before + PageEntries(keyAuthor, fetched))
  {
    match fetched {
      case FetchFailed =>
        assert before + PageEntries(keyAuthor, FetchFailed) == before;
        updated := findDict;
      case Results(slots) =>
        updated := StorePage(keyAuthor, slots, findDict, before);
    }
  }

  /** The page loop of `load_novel_urls`: every requested page fills
      `find_dict`, a failed page adding nothing. */
  method StorePages(keyAuthor: String, fetch: int -> Page, searchPages: int) returns (findDict: FindDict)
    ensures findDict == Upserted(EntriesOf(keyAuthor, fetch, PagesSearched(searchPages)))
  {
    findDict := FindDict([], map[]);
    ghost var done: seq<Entry> := [];
    var page := 1;
    while page < searchPages
      invariant 1 <= page && (page <= searchPages || page == 1)
      invariant done == EntriesOf(keyAuthor, fetch, PagesSearched(page))
      invariant findDict == Upserted(done)
      decreases searchPages - page
    {
      var fetched := fetch(page);
      findDict := TryPage(keyAuthor, fetched, findDict, done);
      NextPage(keyAuthor, fetch, page);
      done := done + PageEntries(keyAuthor, fetched);
      page := page + 1;
    }
    if searchPages <= 1 {
      assert PagesSearched(page) == [] == PagesSearched(searchPages);
    }
  }

  /** `load_novel_urls`: the query is joined and encoded (raising, `None`,
      when it cannot be), the pages fill `find_dict`, then the links are
      mapped to detail-API URLs. */
  method LoadNovelUrls(query: Query, gbk: String -> bool, fetch: int -> Page, searchPages: int)
    returns (urls: Option<seq<String>>)
    ensures urls.None? <==> !QueryEncodes(query, gbk)
    ensures urls.Some? ==> urls.value == NovelUrls(query.authors.value, fetch, searchPages)
  {
    if query.authors.None? {
      return None;
    }
    var keyAuthor := Join("", query.authors.value);
    if query.title.None? || !gbk(query.title.value) {
      return None;
    }
    var findDict := StorePages(keyAuthor, fetch, searchPages);
    var found := ApiUrlsOf(findDict);
    urls := Some(found);
  }

  /** One more block stores its entry, if any, after the earlier ones. */
  lemma StepEntries(keyAuthor: String, slots: seq<Slot>, i: int, before: seq<Entry>)
    requires i >= FirstSlot
    ensures var e := SlotEntry(keyAuthor, SlotAt(slots, i));
      var done := before + SlotEntries(keyAuthor, slots, i);
      Upserted(before + SlotEntries(keyAuthor, slots, i + 1))
        == if e.Some? then Put(Upserted(done), e.value) else Upserted(done)
  {
    var e := SlotEntry(keyAuthor, SlotAt(slots, i));
    var done := before + SlotEntries(keyAuthor, slots, i);
    if e.Some? {
      assert before + SlotEntries(keyAuthor, slots, i + 1) == done + [e.value];
      UpsertedSnoc(done, e.value);
    } else {
      assert before + SlotEntries(keyAuthor, slots, i + 1) == done;
    }
  }

  /** The entries of one more page follow those of the earlier pages. */
  lemma NextPage(keyAuthor: String, fetch: int -> Page, page: int)
    requires page >= 1
    ensures EntriesOf(keyAuthor, fetch, PagesSearched(page + 1))
      == EntriesOf(keyAuthor, fetch, PagesSearched(page)) + PageEntries(keyAuthor, fetch(page))
  {
    assert PagesSearched(page + 1)[..|PagesSearched(page + 1)| - 1] == PagesSearched(page);
  }

  /** The result has one URL per distinct key, in first-insertion order; the
      URL for a key is built from the id of the last link stored under it,
      and that id is never empty. */
  lemma NovelUrlsSpec(authors: seq<String>, fetch: int -> Page, searchPages: int)
    ensures var es := EntriesOf(Join("", authors), fetch, PagesSearched(searchPages));
      var d := Upserted(es);
      var urls := NovelUrls(authors, fetch, searchPages);
      && |urls| == |d.keys| == |d.urls|
      && (forall j :: 0 <= j < |urls| ==> d.keys[j] in d.urls && urls[j] == ApiUrlPrefix + IdOf(d.urls[d.keys[j]]))
      && (forall j :: 0 <= j < |urls| ==> IdOf(d.urls[d.keys[j]]) != [])
  {
    var es := EntriesOf(Join("", authors), fetch, PagesSearched(searchPages));
    var d := Upserted(es);
    ApiUrlsSpec(d.keys, d.urls);
    KeysCountDistinct(es);
    forall j | 0 <= j < |d.keys|
      ensures IdOf(d.urls[d.keys[j]]) != []
    {
      StoredLinksHaveIds(Join("", authors), fetch, PagesSearched(searchPages), d.keys[j]);
    }
  }

  /** Every entry a page produces has a link with a non-empty id. */
  lemma {:induction false} SlotEntriesHaveIds(keyAuthor: String, slots: seq<Slot>, n: int)
    ensures forall j :: 0 <= j < |SlotEntries(keyAuthor, slots, n)| ==>
      IdOf(SlotEntries(keyAuthor, slots, n)[j].url) != []
    decreases n
  {
    if n > FirstSlot {
      SlotEntriesHaveIds(keyAuthor, slots, n - 1);
      SlotEntrySpec(keyAuthor, SlotAt(slots, n - 1));
    }
  }

  /** Every entry the requested pages produce has a link with a non-empty id. */
  lemma {:induction false} EntriesHaveIds(keyAuthor: String, fetch: int -> Page, pages: seq<int>)
    ensures forall j :: 0 <= j < |EntriesOf(keyAuthor, fetch, pages)| ==>
      IdOf(EntriesOf(keyAuthor, fetch, pages)[j].url) != []
  {
    if pages != [] {
      EntriesHaveIds(keyAuthor, fetch, pages[..|pages| - 1]);
      var page := fetch(Last(pages));
      if page.Results? {
        SlotEntriesHaveIds(keyAuthor, page.slots, SlotEnd);
      }
    }
  }

  /** A link stored in the dictionary has a non-empty id. */
  lemma StoredLinksHaveIds(keyAuthor: String, fetch: int -> Page, pages: seq<int>, k: String)
    requires k in Upserted(EntriesOf(keyAuthor, fetch, pages)).urls
    ensures IdOf(Upserted(EntriesOf(keyAuthor, fetch, pages)).urls[k]) != []
  {
    var es := EntriesOf(keyAuthor, fetch, pages);
    EntriesHaveIds(keyAuthor, fetch, pages);
    StoredLinkIsEntryLink(es, k);
  }

  /** The link stored under a key is the link of some entry. */
  lemma {:induction false} StoredLinkIsEntryLink(es: seq<Entry>, k: String)
    requires k in Upserted(es).urls
    ensures exists j :: 0 <= j < |es| && es[j].key == k && es[j].url == Upserted(es).urls[k]
  {
    var init, e := es[..|es| - 1], Last(es);
    if e.key == k {
      assert es[|es| - 1] == e;
    } else {
      StoredLinkIsEntryLink(init, k);
      var j :| 0 <= j < |init| && init[j].key == k && init[j].url == Upserted(init).urls[k];
      assert es[j] == init[j];
    }
  }

  /** At most 25 entries, so at most 25 URLs, per requested page. */
  lemma {:induction false} EntriesBound(keyAuthor: String, fetch: int -> Page, pages: seq<int>)
    ensures |EntriesOf(keyAuthor, fetch, pages)| <= (SlotEnd - FirstSlot) * |pages|
  {
    if pages != [] {
      EntriesBound(keyAuthor, fetch, pages[..|pages| - 1]);
    }
  }

  lemma NovelUrlsBound(authors: seq<String>, fetch: int -> Page, searchPages: int)
    ensures |NovelUrls(authors, fetch, searchPages)| <= 25 * |PagesSearched(searchPages)|
  {
    var es := EntriesOf(Join("", authors), fetch, PagesSearched(searchPages));
    EntriesBound(Join("", authors), fetch, PagesSearched(searchPages));
    ApiUrlsSpec(Upserted(es).keys, Upserted(es).urls);
  }

  /** Only the requested pages matter: two searches that see the same pages
      1 .. searchPages - 1 return the same URLs. */
  lemma {:induction false} EntriesOnlyRequested(keyAuthor: String, f: int -> Page, g: int -> Page, pages: seq<int>)
    requires forall k :: 0 <= k < |pages| ==> f(pages[k]) == g(pages[k])
    ensures EntriesOf(keyAuthor, f, pages) == EntriesOf(keyAuthor, g, pages)
  {
    if pages != [] {
      EntriesOnlyRequested(keyAuthor, f, g, pages[..|pages| - 1]);
    }
  }

  lemma OnlyRequestedPagesMatter(authors: seq<String>, f: int -> Page, g: int -> Page, searchPages: int)
    requires forall p :: 1 <= p < searchPages ==> f(p) == g(p)
    ensures NovelUrls(authors, f, searchPages) == NovelUrls(authors, g, searchPages)
  {
    var pages := PagesSearched(searchPages);
    assert forall k :: 0 <= k < |pages| ==> 1 <= pages[k] < searchPages;
    EntriesOnlyRequested(Join("", authors), f, g, pages);
  }

  /** `search_novels` passes 10, which requests pages 1 to 9 only. */
  lemma SearchNovelsPages()
    ensures PagesSearched(SearchPages) == [1, 2, 3, 4, 5, 6, 7, 8, 9]
  {
    var r := PagesSearched(SearchPages);
    assert |r| == 9;
    assert forall k :: 0 <= k < 9 ==> r[k] == k + 1;
  }

  // ------------------------------------------------------------ search_novels

  /** The outcome of one detail request (`load_novel`): it raised, or its
      first request answered with `status`, its payload decoded to `info`
      and the novel page yielded `titles`. */
  datatype Detail = Raised | Answered(status: int, info: NovelInfo, titles: Option<seq<String>>)

  /** A response `load_novel` turns into a record: an answer with status
      200 or 201. */
  predicate Accepted(d: Detail)
  {
    d.Answered? && (d.status == 200 || d.status == 201)
  }

  /** The record one response yields, if any. */
  function Yield(d: Detail): seq<Novel>
  {
    match d
    case Raised => []
    case Answered(_, info, titles) =>
      if Accepted(d) then [NovelRecord(info, titles)] else []
  }

  /** The outcomes of the detail requests for `urls`, in submission order.
      `detail(i, url)` is the outcome of the `i`-th request, so two requests
      for the same URL may fare differently. */
  function Responses(urls: seq<String>, detail: (int, String) -> Detail): (rs: seq<Detail>)
    ensures |rs| == |urls| && forall i :: 0 <= i < |urls| ==> rs[i] == detail(i, urls[i])
  {
    seq(|urls|, i requires 0 <= i < |urls| => detail(i, urls[i]))
  }

  /** The records the responses `rs` yield, in order. */
  function Collected(rs: seq<Detail>): seq<Novel>
  {
    if rs == [] then []
    else Collected(rs[..|rs| - 1]) + Yield(Last(rs))
  }

  /** The positions of the accepted responses. */
  function AcceptedAt(rs: seq<Detail>): set<int>
  {
    set i | 0 <= i < |rs| && Accepted(rs[i])
  }

  /** There are no more records than responses, and as many exactly when
      every response is accepted. */
  lemma CollectedCount(rs: seq<Detail>)
    ensures |Collected(rs)| <= |rs|
    ensures |Collected(rs)| == |rs| <==> forall i :: 0 <= i < |rs| ==> Accepted(rs[i])
  {
    CollectedExactCount(rs);
    AcceptedAtBound(rs);
  }

  /** One more response adds its position when it is accepted. */
  lemma AcceptedAtSnoc(rs: seq<Detail>)
    requires rs != []
    ensures var init, last := rs[..|rs| - 1], |rs| - 1;
      && last !in AcceptedAt(init)
      && AcceptedAt(rs) == AcceptedAt(init) + (if Accepted(rs[last]) then {last} else {})
  {
    var init := rs[..|rs| - 1];
    assert forall i :: 0 <= i < |init| ==> init[i] == rs[i];
  }

  /** At most every position is accepted, and all of them exactly when
      every response is. */
  lemma {:induction false} AcceptedAtBound(rs: seq<Detail>)
    ensures |AcceptedAt(rs)| <= |rs|
    ensures |AcceptedAt(rs)| == |rs| <==> forall i :: 0 <= i < |rs| ==> Accepted(rs[i])
  {
    if rs != [] {
      var init := rs[..|rs| - 1];
      AcceptedAtBound(init);
      AcceptedAtSnoc(rs);
      assert forall i :: 0 <= i < |init| ==> rs[i] == init[i];
    }
  }

  /** There is exactly one record per accepted response. */
  lemma {:induction false} CollectedExactCount(rs: seq<Detail>)
    ensures |Collected(rs)| == |AcceptedAt(rs)|
  {
    if rs != [] {
      CollectedExactCount(rs[..|rs| - 1]);
      AcceptedAtSnoc(rs);
      assert Last(rs) == rs[|rs| - 1];
    }
  }

  /** Every collected record is the record parsed from an accepted
      response. */
  lemma {:induction false} CollectedSpec(rs: seq<Detail>)
    ensures forall n :: n in Collected(rs) ==>
      exists i :: 0 <= i < |rs| && Accepted(rs[i]) && n == NovelRecord(rs[i].info, rs[i].titles)
  {
    if rs != [] {
      var init := rs[..|rs| - 1];
      CollectedSpec(init);
      forall n | n in Collected(rs)
        ensures exists i :: 0 <= i < |rs| && Accepted(rs[i]) && n == NovelRecord(rs[i].info, rs[i].titles)
      {
        if n in Collected(init) {
          var i :| 0 <= i < |init| && Accepted(init[i]) && n == NovelRecord(init[i].info, init[i].titles);
          assert rs[i] == init[i];
        } else {
          assert rs[|rs| - 1] == Last(rs);
        }
      }
    }
  }

  /** Conversely, the record of every accepted response is collected. */
  lemma {:induction false} CollectedComplete(rs: seq<Detail>, i: int)
    requires 0 <= i < |rs| && Accepted(rs[i])
    ensures NovelRecord(rs[i].info, rs[i].titles) in Collected(rs)
  {
    var init := rs[..|rs| - 1];
    if i < |rs| - 1 {
      assert init[i] == rs[i];
      CollectedComplete(init, i);
    } else {
      assert Last(rs) == rs[i];
    }
  }

  /** The requests of the fan-out of `search_novels`, one per URL. One that
      raises makes the whole call raise (`None`). */
  method RequestAll(urls: seq<String>, detail: (int, String) -> Detail) returns (rs: Option<seq<Detail>>)
    ensures rs.None? <==> exists i :: 0 <= i < |urls| && detail(i, urls[i]).Raised?
    ensures rs.Some? ==> rs.value == Responses(urls, detail)
  {
    var done: seq<Detail> := [];
    for j := 0 to |urls|
      invariant |done| == j
      invariant forall i :: 0 <= i < j ==> done[i] == detail(i, urls[i]) && done[i].Answered?
    {
      var d := detail(j, urls[j]);
      if d.Raised? {
        return None;
      }
      done := done + [d];
    }
    rs := Some(done);
  }

  /** One more response adds what it yields. */
  lemma CollectedSnoc(rs: seq<Detail>, j: int)
    requires 0 <= j < |rs|
    ensures Collected(rs[..j + 1]) == Collected(rs[..j]) + Yield(rs[j])
  {
    assert rs[..j + 1][..j] == rs[..j];
  }

  /** The results of the answered requests: `load_novel` keeps the record of
      each response with status 200 or 201. */
  method ParseAll(rs: seq<Detail>) returns (novels: seq<Novel>)
    requires forall i :: 0 <= i < |rs| ==> rs[i].Answered?
    ensures novels == Collected(rs)
  {
    novels := [];
    for j := 0 to |rs|
      invariant novels == Collected(rs[..j])
    {
      CollectedSnoc(rs, j);
      var novel := LoadNovel(rs[j].status, rs[j].info, rs[j].titles);
      if novel.Some? {
        novels := novels + [novel.value];
      }
    }
    assert rs[..|rs|] == rs;
  }

  /** `search_novels`: the URLs of a ten-page search, then one detail request
      per URL. The whole search raises when the query cannot be encoded or
      when one request raises, and otherwise returns the records of the
      accepted responses, in an order the model does not fix. */
  method SearchNovels(query: Query, gbk: String -> bool, fetch: int -> Page, detail: (int, String) -> Detail)
    returns (novels: Option<seq<Novel>>)
    ensures !QueryEncodes(query, gbk) ==> novels.None?
    ensures QueryEncodes(query, gbk) ==>
      var urls := NovelUrls(query.authors.value, fetch, SearchPages);
      && (novels.None? <==> exists i :: 0 <= i < |urls| && detail(i, urls[i]).Raised?)
      && (novels.Some? ==> multiset(novels.value) == multiset(Collected(Responses(urls, detail))))
  {
    var urls := LoadNovelUrls(query, gbk, fetch, SearchPages);
    if urls.None? {
      return None;
    }
    var rs := RequestAll(urls.value, detail);
    if rs.None? {
      return None;
    }
    var found := ParseAll(rs.value);
    novels := Some(found);
  }
}
