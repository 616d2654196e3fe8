/** The metadata source's `to_metadata`: the only logic it holds beyond
    copying fields is which `strptime` format it tries on the publication
    date, chosen by two anchored regular expressions. */
module CalibreSource {

  import opened Wrappers
  import opened PyText
  import NovelParser

  /** The `strptime` format tried: `'%Y-%m'` or `'%Y-%m-%d'`. */
  datatype DateFormat = YearMonth | YearMonthDay

  /** `\d`, read as the ASCII digits. */
  predicate IsDigit(c: char)
  {
    '0' <= c <= '9'
  }

  // ------------------------------------------------------------ the matcher

  /** Where the greedy digit run `\d*` that starts at `i` stops. */
  function DigitsEnd(s: String, i: nat): (r: nat)
    requires i <= |s|
    ensures i <= r <= |s|
    ensures forall k :: i <= k < r ==> IsDigit(s[k])
    ensures r < |s| ==> !IsDigit(s[r])
    decreases |s| - i
  {
    if i < |s| && IsDigit(s[i]) then DigitsEnd(s, i + 1) else i
  }

  /** Python's `$`: the end of the string, or just before a final newline. */
  predicate AtEnd(s: String, i: nat)
  {
    i == |s| || (i == |s| - 1 && s[i] == '\n')
  }

  /** `re.match('^\d{4}-\d+$', s)`: four digits and a hyphen, then a digit
      run that ends where `$` holds. A run that stops early never helps, as
      the character after it would have to be a digit, so no backtracking is
      needed. */
  predicate MatchesYearMonth(s: String)
  {
    && DigitsEnd(s, 0) == 4 && |s| > 4 && s[4] == '-'
    && var m := DigitsEnd(s, 5);
    m > 5 && AtEnd(s, m)
  }

  /** `re.match('^\d{4}-\d+-\d+$', s)`: as above with a second hyphen and a
      second digit run. */
  predicate MatchesFullDate(s: String)
  {
    && DigitsEnd(s, 0) == 4 && |s| > 4 && s[4] == '-'
    && var m := DigitsEnd(s, 5);
    && m > 5 && m < |s| && s[m] == '-'
    && var d := DigitsEnd(s, m + 1);
    d > m + 1 && AtEnd(s, d)
  }

  /** The pubdate branch of `to_metadata`: a missing or empty date is left
      alone, otherwise the year-month pattern is tried before the full date. */
  function PubdateFormat(pubdate: Option<String>): Option<DateFormat>
  {
    if pubdate.None? || pubdate.value == "" then None
    else if MatchesYearMonth(pubdate.value) then Some(YearMonth)
    else if MatchesFullDate(pubdate.value) then Some(YearMonthDay)
    else None
  }

  // ------------------------------------------------------------ the shapes

  /** A non-empty run of digits. */
  predicate Digits(t: String)
  {
    |t| > 0 && forall i :: 0 <= i < |t| ==> IsDigit(t[i])
  }

  /** What the pattern before `$` has to cover: the string less one final
      newline. */
  function Body(s: String): (t: String)
    ensures t == s || (t + "\n" == s)
  {
    if |s| > 0 && Last(s) == '\n' then s[..|s| - 1] else s
  }

  /** `dddd-d+` */
  predicate YearMonthShape(t: String)
  {
    |t| > 5 && Digits(t[..4]) && t[4] == '-' && Digits(t[5..])
  }

  /** `dddd-d+-d+`, the second hyphen at `k` */
  predicate FullDateAt(t: String, k: int)
  {
    && 5 < k < |t| - 1
    && Digits(t[..4]) && t[4] == '-'
    && Digits(t[5..k]) && t[k] == '-' && Digits(t[k + 1..])
  }

  predicate FullDateShape(t: String)
  {
    exists k :: 5 < k < |t| - 1 && FullDateAt(t, k)
  }

  // ------------------------------------------------------------ the lemmas

  /** A digit run that ends at a non-digit (or the end) is the greedy one. */
  lemma {:induction false} DigitsEndAt(s: String, i: nat, j: nat)
    requires i <= j <= |s|
    requires forall k :: i <= k < j ==> IsDigit(s[k])
    requires j < |s| ==> !IsDigit(s[j])
    ensures DigitsEnd(s, i) == j
    decreases j - i
  {
    if i < j {
      DigitsEndAt(s, i + 1, j);
    }
  }

  /** Where the matcher's `$` holds, the body is the prefix it stopped at. */
  lemma BodyAtEnd(s: String, e: nat)
    requires 0 < e <= |s| && AtEnd(s, e) && IsDigit(s[e - 1])
    ensures Body(s) == s[..e]
  {
    if e == |s| {
      assert Last(s) == s[e - 1];
      assert s[..e] == s;
    }
  }

  /** Slices of the body below its length are slices of the string. */
  lemma BodySlices(s: String)
    ensures |Body(s)| <= |s|
    ensures forall k :: 0 <= k < |Body(s)| ==> Body(s)[k] == s[k]
    ensures |Body(s)| < |s| ==> |Body(s)| == |s| - 1 && s[|s| - 1] == '\n'
  {
  }

  /** The year-month regex accepts exactly the strings whose body has the
      `dddd-d+` shape. */
  lemma {:induction false} YearMonthMatch(s: String)
    ensures MatchesYearMonth(s) <==> YearMonthShape(Body(s))
  {
    var t := Body(s);
    BodySlices(s);
    if MatchesYearMonth(s) {
      var m := DigitsEnd(s, 5);
      BodyAtEnd(s, m);
      assert t[..4] == s[..4];
      assert forall i :: 0 <= i < |t[5..]| ==> t[5..][i] == s[5 + i];
    }
    if YearMonthShape(t) {
      assert forall k :: 0 <= k < 4 ==> s[k] == t[..4][k];
      assert forall k :: 5 <= k < |t| ==> s[k] == t[5..][k - 5];
      DigitsEndAt(s, 0, 4);
      DigitsEndAt(s, 5, |t|);
    }
  }

  /** A full-date match leaves a body of the `dddd-d+-d+` shape, its second
      hyphen where the first digit run stops. */
  lemma FullDateMatchShape(s: String)
    requires MatchesFullDate(s)
    ensures FullDateAt(Body(s), DigitsEnd(s, 5))
  {
    var t := Body(s);
    var m := DigitsEnd(s, 5);
    var d := DigitsEnd(s, m + 1);
    BodyAtEnd(s, d);
    assert t[..4] == s[..4];
    assert forall i :: 0 <= i < |t[5..m]| ==> t[5..m][i] == s[5 + i];
    var day := t[m + 1..];
    assert forall i :: 0 <= i < |day| ==> day[i] == s[m + 1 + i];
  }

  /** A body of the `dddd-d+-d+` shape is matched by the full-date regex. */
  lemma ShapeFullDateMatch(s: String, k: int)
    requires FullDateAt(Body(s), k)
    ensures MatchesFullDate(s)
  {
    var t := Body(s);
    BodySlices(s);
    assert forall i :: 0 <= i < 4 ==> s[i] == t[..4][i];
    assert forall i :: 5 <= i < k ==> s[i] == t[5..k][i - 5];
    assert forall i :: k + 1 <= i < |t| ==> s[i] == t[k + 1..][i - k - 1];
    DigitsEndAt(s, 0, 4);
    DigitsEndAt(s, 5, k);
    DigitsEndAt(s, k + 1, |t|);
  }

  /** The full-date regex accepts exactly the strings whose body has the
      `dddd-d+-d+` shape. */
  lemma FullDateMatch(s: String)
    ensures MatchesFullDate(s) <==> FullDateShape(Body(s))
  {
    if MatchesFullDate(s) {
      FullDateMatchShape(s);
    }
    if FullDateShape(Body(s)) {
      var k :| 5 < k < |Body(s)| - 1 && FullDateAt(Body(s), k);
      ShapeFullDateMatch(s, k);
    }
  }

  /** No string has both shapes: the full date has a hyphen where the
      year-month shape wants only digits. */
  lemma ShapesExclusive(t: String)
    ensures !(YearMonthShape(t) && FullDateShape(t))
  {
    if FullDateShape(t) {
      var k :| 5 < k < |t| - 1 && FullDateAt(t, k);
      assert t[5..][k - 5] == t[k];
    }
  }

  /** The format `to_metadata` tries, in terms of the shapes: year-month for
      `dddd-d+`, the full date for `dddd-d+-d+`, nothing otherwise (the empty
      and the missing date included). A single final newline is tolerated,
      as `$` allows. */
  lemma PubdateFormatSpec(pubdate: Option<String>)
    ensures pubdate.None? ==> PubdateFormat(pubdate) == None
    ensures pubdate.Some? ==>
      var t := Body(pubdate.value);
      && (PubdateFormat(pubdate) == Some(YearMonth) <==> YearMonthShape(t))
      && (PubdateFormat(pubdate) == Some(YearMonthDay) <==> FullDateShape(t))
      && (PubdateFormat(pubdate) == None <==> !YearMonthShape(t) && !FullDateShape(t))
  {
    if pubdate.Some? {
      var s := pubdate.value;
      YearMonthMatch(s);
      FullDateMatch(s);
      ShapesExclusive(Body(s));
    }
  }

  /** The date the novel parser extracts never ends in a newline, so the
      shapes apply to it exactly as extracted. */
  lemma {:induction false} ExtractedPubdateFormat(titles: Option<seq<String>>)
    ensures var p := NovelParser.PublishedDate(titles);
      && Body(p) == p
      && (PubdateFormat(Some(p)) == Some(YearMonth) <==> YearMonthShape(p))
      && (PubdateFormat(Some(p)) == Some(YearMonthDay) <==> FullDateShape(p))
  {
    var p := NovelParser.PublishedDate(titles);
    if titles.Some? {
      NovelParser.PubdateSpec(Join("", titles.value));
      if |p| > 0 {
        assert Last(p) in p;
      }
    }
    PubdateFormatSpec(Some(p));
  }
}
