/** `JJWXC_NOVEL_Parser.parse_novel` and `NovelLoader.load_novel`: how one
    novel's record is assembled from the detail API's payload and from the
    `title` attribute read off the novel's web page.  Fetching, gzip/GBK
    decoding, JSON decoding and the XPath query are outside the model: the
    payload arrives as a `NovelInfo`, the attribute values as a list of
    strings (or `None` when that part of the work raised). */
module NovelParser {
  import opened Wrappers
  import opened PyText

  /** `JJWXC_NOVEL_URL` without its `%s`. */
  const NovelPageUrl: String := "http://www.jjwxc.net/onebook.php?novelid="
  const Publisher: String := "晋江文学城"

  /** The payload fields the parser reads.  `novelIntro` is `None` when reading
      and cleaning it raises (the key is missing or its value is not text). */
  datatype NovelInfo = NovelInfo(
    novelId: String,
    novelName: String,
    authorName: String,
    novelCover: String,
    novelIntro: Option<String>,
    novelTags: String,
    novelReviewScore: String)

  /** The dictionary `parse_novel` returns.  The rating is kept as the text
      that is handed to `float` (`scoreText`). */
  datatype Novel = Novel(
    url: String,
    title: String,
    id: String,
    publisher: String,
    authors: seq<String>,
    cover: String,
    description: String,
    tags: seq<String>,
    scoreText: String,
    publishedDate: String)

  // ---------------------------------------------------------------- intro

  /** The intro with every `&lt;` and then every `&gt;` removed. */
  function StripMarkup(raw: String): String
  {
    RemoveAll(RemoveAll(raw, "&lt;"), "&gt;")
  }

  /** `intro_`: the cleaned intro split on the `br/` line-break marker. */
  function IntroSegments(raw: String): seq<String>
  {
    Split(StripMarkup(raw), "br/")
  }

  /** The segments that are not empty, in their order. */
  function NonEmpty(segs: seq<String>): (r: seq<String>)
    ensures |r| <= |segs|
    ensures forall k :: 0 <= k < |r| ==> r[k] != "" && r[k] in segs
  {
    if segs == [] then []
    else NonEmpty(segs[..|segs| - 1]) + (if Last(segs) == "" then [] else [Last(segs)])
  }

  /** The text the intro loop accumulates over `segs`. */
  function IntroText(segs: seq<String>): String
  {
    if segs == [] then ""
    else IntroText(segs[..|segs| - 1]) + (if Last(segs) == "" then "" else Last(segs) + "\n")
  }

  /** The intro loop: every non-empty segment is appended with a line break. */
  method BuildIntro(segs: seq<String>) returns (intro: String)
    ensures intro == IntroText(segs)
  {
    intro := "";
    for i := 0 to |segs|
      invariant intro == IntroText(segs[..i])
    {
      if segs[i] != "" {
        intro := intro + segs[i] + "\n";
      }
      assert segs[..i + 1][..i] == segs[..i];
    }
    assert segs[..|segs|] == segs;
  }

  /** The description: empty when reading the intro raised. */
  function Description(intro: Option<String>): String
  {
    match intro
    case None => ""
    case Some(raw) => IntroText(IntroSegments(raw))
  }

  /** The intro text is `"\n".join` of the non-empty segments plus a final
      line break, and is empty exactly when every segment is. */
  lemma {:induction false} IntroIsJoin(segs: seq<String>)
    ensures IntroText(segs) == (if NonEmpty(segs) == [] then "" else Join("\n", NonEmpty(segs)) + "\n")
    ensures IntroText(segs) == "" <==> NonEmpty(segs) == []
  {
    if segs != [] {
      var init, x := segs[..|segs| - 1], Last(segs);
      IntroIsJoin(init);
      if x == "" {
        assert NonEmpty(segs) == NonEmpty(init) + [];
        assert IntroText(segs) == IntroText(init) + "";
        assert NonEmpty(init) + [] == NonEmpty(init);
        assert IntroText(init) + "" == IntroText(init);
      } else {
        assert NonEmpty(segs) == NonEmpty(init) + [x];
        assert IntroText(segs) == IntroText(init) + (x + "\n");
        if NonEmpty(init) == [] {
          assert NonEmpty(segs) == [x];
        } else {
          JoinSnoc("\n", NonEmpty(init), x);
        }
      }
    }
  }

  /** The intro text is empty or ends with a line break. */
  lemma {:induction false} IntroEndsWithBreak(segs: seq<String>)
    ensures var t := IntroText(segs); t == "" || t[|t| - 1] == '\n'
  {
    if segs != [] {
      IntroEndsWithBreak(segs[..|segs| - 1]);
    }
  }

  /** When no segment holds a line break, splitting the intro text on line
      breaks gives exactly one line per non-empty segment, then the empty
      remainder after the final break. */
  lemma IntroLines(segs: seq<String>)
    requires forall k :: 0 <= k < |segs| ==> '\n' !in segs[k]
    ensures Split(IntroText(segs), "\n") == NonEmpty(segs) + [""]
  {
    IntroIsJoin(segs);
    var ne := NonEmpty(segs);
    if ne == [] {
      SplitNoSep("", "\n");
    } else {
      IntroLinesJoined(segs, ne);
    }
  }

  lemma IntroLinesJoined(segs: seq<String>, ne: seq<String>)
    requires forall k :: 0 <= k < |segs| ==> '\n' !in segs[k]
    requires ne == NonEmpty(segs) && ne != []
    ensures Split(Join("\n", ne) + "\n", "\n") == ne + [""]
  {
    var parts := ne + [""];
    JoinSnoc("\n", ne, "");
    assert Join("\n", ne) + "\n" == Join("\n", ne) + "\n" + "";
    forall k | 0 <= k < |parts|
      ensures '\n' !in parts[k]
    {
      if k < |ne| {
        assert parts[k] == ne[k] && ne[k] in segs;
      }
    }
    JoinSplitChar(parts, '\n');
  }

  /** A pattern without line breaks that occurs in no segment occurs nowhere
      in the intro text: the added line breaks cannot create one. */
  lemma {:induction false} IntroAvoids(segs: seq<String>, pat: String)
    requires |pat| > 0 && '\n' !in pat
    requires forall k :: 0 <= k < |segs| ==> !Contains(segs[k], pat)
    ensures !Contains(IntroText(segs), pat)
  {
    if segs != [] {
      var init, x := segs[..|segs| - 1], Last(segs);
      assert forall k :: 0 <= k < |init| ==> init[k] == segs[k];
      IntroAvoids(init, pat);
      IntroEndsWithBreak(init);
      if x == "" {
        assert IntroText(segs) == IntroText(init) + "";
        assert IntroText(init) + "" == IntroText(init);
      } else {
        assert IntroText(segs) == IntroText(init) + (x + "\n");
        NotInSingleton(pat, '\n');
        NoOccurrenceAcross(x, "\n", pat, '\n');
        NoOccurrenceAcross(IntroText(init), x + "\n", pat, '\n');
      }
    }
  }

  /** The description built from a raw intro: empty or ending in a line
      break, free of the `br/` marker, and made of one line per non-empty
      segment of the cleaned intro. */
  lemma DescriptionSpec(raw: String)
    ensures var d := Description(Some(raw)); var ne := NonEmpty(IntroSegments(raw));
      && (d == "" || d[|d| - 1] == '\n')
      && !Contains(d, "br/")
      && d == (if ne == [] then "" else Join("\n", ne) + "\n")
  {
    var segs := IntroSegments(raw);
    IntroEndsWithBreak(segs);
    IntroIsJoin(segs);
    SplitPiecesFree(StripMarkup(raw), "br/");
    IntroAvoids(segs, "br/");
  }

  /** When the cleaned intro holds no line break, the description's lines are
      exactly its non-empty segments. */
  lemma DescriptionLines(raw: String)
    requires '\n' !in StripMarkup(raw)
    ensures Split(Description(Some(raw)), "\n") == NonEmpty(IntroSegments(raw)) + [""]
  {
    var segs := IntroSegments(raw);
    forall k | 0 <= k < |segs|
      ensures '\n' !in segs[k]
    {
      SplitPieceLacks(StripMarkup(raw), "br/", k, '\n');
    }
    IntroLines(segs);
  }

  // ----------------------------------------------------------- small fields

  /** `novelTags.split(",")` */
  function Tags(s: String): seq<String>
  {
    Split(s, ",")
  }

  /** The tags join back to the tag text, hold no comma, and number one more
      than the commas. */
  lemma TagsSpec(s: String)
    ensures Join(",", Tags(s)) == s
    ensures forall k :: 0 <= k < |Tags(s)| ==> ',' !in Tags(s)[k]
    ensures |Tags(s)| == Count(s, ',') + 1
  {
    SplitJoin(s, ",");
    SplitPiecesFree(s, ",");
    forall k | 0 <= k < |Tags(s)|
      ensures ',' !in Tags(s)[k]
    {
      ContainsChar(Tags(s)[k], ',');
    }
    SplitCharCount(s, ',');
  }

  /** `novelReviewScore.split("分")[0]`: the text handed to `float`. */
  function ScoreText(s: String): String
  {
    Split(s, "分")[0]
  }

  /** The score text is the longest prefix without `分`: the whole text when
      it has no `分`, otherwise the text up to its first `分`. */
  lemma ScoreTextSpec(s: String)
    ensures var r := ScoreText(s);
      && r == s[..|r|] && '分' !in r
      && ('分' in s ==> |r| < |s| && s[|r|] == '分')
      && ('分' !in s ==> r == s)
  {
    SplitFirstChar(s, "分");
  }

  /** The last line of the `title` attribute. */
  function LastLine(title: String): String
  {
    Last(Split(title, "\n"))
  }

  /** The first space-separated token of a line. */
  function FirstToken(line: String): String
  {
    Split(line, " ")[0]
  }

  /** The part of a token after its last full-width colon. */
  function AfterColon(token: String): String
  {
    Last(Split(token, "："))
  }

  /** The date text in the `title` attribute: the part after the last `：`
      of the first token of the last line, with trailing line breaks removed. */
  function PubdateText(title: String): String
  {
    RStrip(AfterColon(FirstToken(LastLine(title))), '\n')
  }

  /** The last line is the suffix of the attribute after its last line break. */
  lemma LastLineSpec(title: String)
    ensures var line := LastLine(title);
      && |line| <= |title| && line == title[|title| - |line|..] && '\n' !in line
      && ('\n' in title ==> |line| < |title| && title[|title| - |line| - 1] == '\n')
      && ('\n' !in title ==> line == title)
  {
    SplitLastChar(title, "\n");
  }

  /** The first token is the prefix of the line before its first space. */
  lemma FirstTokenSpec(line: String)
    ensures var token := FirstToken(line);
      && token == line[..|token|] && ' ' !in token
      && (' ' in line ==> |token| < |line| && line[|token|] == ' ')
      && (' ' !in line ==> token == line)
  {
    SplitFirstChar(line, " ");
  }

  /** The part after the colon is the suffix of the token after its last `：`. */
  lemma AfterColonSpec(token: String)
    ensures var p := AfterColon(token);
      && |p| <= |token| && p == token[|token| - |p|..] && '：' !in p
      && ('：' in token ==> |p| < |token| && token[|token| - |p| - 1] == '：')
      && ('：' !in token ==> p == token)
  {
    SplitLastChar(token, "：");
  }

  /** The extracted date is the part after the colon of the first token of
      the last line (the final `rstrip` never has anything to remove), and
      it holds none of the separators it was cut at. */
  lemma PubdateSpec(title: String)
    ensures PubdateText(title) == AfterColon(FirstToken(LastLine(title)))
    ensures var p := PubdateText(title); '\n' !in p && ' ' !in p && '：' !in p
  {
    var line := LastLine(title);
    var token := FirstToken(line);
    SplitPieceFreeChar(title, "\n", |Split(title, "\n")| - 1);
    SplitPieceLacks(line, " ", 0, '\n');
    SplitPieceFreeChar(line, " ", 0);
    var k := |Split(token, "：")| - 1;
    SplitPieceLacks(token, "：", k, '\n');
    SplitPieceLacks(token, "：", k, ' ');
    SplitPieceFreeChar(token, "：", k);
    RStripNothing(AfterColon(token), '\n');
  }

  /** `publishedDate`: empty when fetching or reading the novel page raised. */
  function PublishedDate(titles: Option<seq<String>>): String
  {
    match titles
    case None => ""
    case Some(ts) => PubdateText(Join("", ts))
  }

  // ------------------------------------------------------------ the record

  /** The record `parse_novel` assembles from the payload, the description
      it built and the date it extracted. */
  function Record(info: NovelInfo, description: String, publishedDate: String): Novel
  {
    Novel(
      url := NovelPageUrl + info.novelId,
      title := info.novelName,
      id := info.novelId,
      publisher := Publisher,
      authors := [info.authorName],
      cover := info.novelCover,
      description := description,
      tags := Tags(info.novelTags),
      scoreText := ScoreText(info.novelReviewScore),
      publishedDate := publishedDate)
  }

  /** The record `parse_novel` builds from the payload and the page's
      `title` attributes. */
  function NovelRecord(info: NovelInfo, titles: Option<seq<String>>): Novel
  {
    Record(info, Description(info.novelIntro), PublishedDate(titles))
  }

  /** `parse_novel`, with the intro built by its loop. */
  method ParseNovel(info: NovelInfo, titles: Option<seq<String>>) returns (novel: Novel)
    ensures novel == NovelRecord(info, titles)
  {
    var intro := "";
    if info.novelIntro.Some? {
      intro := BuildIntro(IntroSegments(info.novelIntro.value));
    }
    var pubdate := "";
    if titles.Some? {
      pubdate := PubdateText(Join("", titles.value));
    }
    novel := Record(info, intro, pubdate);
  }

  /** What every parsed record satisfies: its page URL ends with its id, it
      has one author, its tags rebuild the tag text, its description is
      line-break terminated and marker free, and its date and score texts
      are free of the separators they were cut at. */
  lemma NovelRecordSpec(info: NovelInfo, titles: Option<seq<String>>)
    ensures var n := NovelRecord(info, titles);
      && n.url == NovelPageUrl + n.id && n.publisher == Publisher
      && n.authors == [info.authorName] && |n.authors| == 1
      && Join(",", n.tags) == info.novelTags
      && (n.description == "" || n.description[|n.description| - 1] == '\n')
      && !Contains(n.description, "br/")
      && (info.novelIntro.None? ==> n.description == "")
      && '分' !in n.scoreText
      && '\n' !in n.publishedDate && ' ' !in n.publishedDate && '：' !in n.publishedDate
      && (titles.None? ==> n.publishedDate == "")
  {
    TagsSpec(info.novelTags);
    ScoreTextSpec(info.novelReviewScore);
    if info.novelIntro.Some? {
      DescriptionSpec(info.novelIntro.value);
    }
    if titles.Some? {
      PubdateSpec(Join("", titles.value));
    }
  }

  /** `load_novel`: the record is parsed only when the first request answers
      with status 200 or 201. */
  method LoadNovel(status: int, info: NovelInfo, titles: Option<seq<String>>) returns (novel: Option<Novel>)
    ensures novel.Some? <==> status == 200 || status == 201
    ensures novel.Some? ==> novel.value == NovelRecord(info, titles)
  {
    novel := None;
    if status in [200, 201] {
      var parsed := ParseNovel(info, titles);
      novel := Some(parsed);
    }
  }
}
