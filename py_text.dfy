/** The Python `str` operations the plugin relies on (`join`, `find`/`in`,
    `split`, `replace(pat, "")`, `rstrip`), on sequences of characters, with
    the facts about them that the rest of the model uses. */
module PyText {

  type String = seq<char>

  function Last<T>(xs: seq<T>): T
    requires |xs| > 0
  {
    xs[|xs| - 1]
  }

  /** `sep.join(parts)` */
  function Join(sep: String, parts: seq<String>): String
  {
    if |parts| == 0 then ""
    else if |parts| == 1 then parts[0]
    else parts[0] + sep + Join(sep, parts[1..])
  }

  lemma JoinConcatCons(x: String, xs: seq<String>)
    ensures Join("", [x] + xs) == x + Join("", xs)
  {
    if |xs| == 0 {
      assert [x] + xs == [x];
    } else {
      assert ([x] + xs)[1..] == xs;
    }
  }

  /** `pat` occurs in `s` starting at index `j`. */
  predicate OccursAt(s: String, pat: String, j: int)
  {
    0 <= j && j + |pat| <= |s| && s[j..j + |pat|] == pat
  }

  lemma OccursInSuffix(s: String, pat: String, k: int, j: int)
    requires 0 <= k <= |s| && OccursAt(s[k..], pat, j)
    ensures OccursAt(s, pat, k + j)
  {
    assert s[k..][j..j + |pat|] == s[k + j..k + j + |pat|];
  }

  /** The first index at or after `from` at which `pat` occurs in `s`, or -1. */
  function FindFrom(s: String, pat: String, from: nat): (r: int)
    requires from <= |s|
    ensures r == -1 || from <= r <= |s|
    ensures r >= 0 ==> OccursAt(s, pat, r)
    decreases |s| - from
  {
    if from + |pat| > |s| then -1
    else if s[from..from + |pat|] == pat then from
    else if from == |s| then -1
    else FindFrom(s, pat, from + 1)
  }

  /** `s.find(pat)`: the first index at which `pat` occurs in `s`, or -1. */
  function Find(s: String, pat: String): (r: int)
    ensures -1 <= r <= |s|
    ensures r >= 0 ==> OccursAt(s, pat, r)
  {
    FindFrom(s, pat, 0)
  }

  lemma {:induction false} FindFromIsFirst(s: String, pat: String, from: nat, j: int)
    requires from <= j <= |s|
    requires FindFrom(s, pat, from) < 0 || j < FindFrom(s, pat, from)
    ensures !OccursAt(s, pat, j)
    decreases |s| - from
  {
    if j > from && from + |pat| <= |s| && from < |s| {
      FindFromIsFirst(s, pat, from + 1, j);
    }
  }

  /** No occurrence of `pat` starts before the one `Find` reports. */
  lemma FindIsFirst(s: String, pat: String, j: int)
    requires 0 <= j && (Find(s, pat) < 0 || j < Find(s, pat))
    ensures !OccursAt(s, pat, j)
  {
    if j <= |s| {
      FindFromIsFirst(s, pat, 0, j);
    }
  }

  /** Searching `s` from `from + 1` is searching `s[1..]` from `from`, shifted by one. */
  lemma {:induction false} FindFromShift(s: String, pat: String, from: nat)
    requires 0 < |s| && from < |s|
    ensures var k := FindFrom(s[1..], pat, from);
      FindFrom(s, pat, from + 1) == if k < 0 then -1 else k + 1
    decreases |s| - from
  {
    var t := s[1..];
    if from + 1 + |pat| <= |s| {
      assert t[from..] == s[from + 1..];
      assert s[from + 1..from + 1 + |pat|] == t[from..][..|pat|];
      if s[from + 1..from + 1 + |pat|] != pat && from + 1 < |s| {
        FindFromShift(s, pat, from + 1);
      }
    }
  }

  /** `pat in s` */
  predicate Contains(s: String, pat: String)
  {
    Find(s, pat) >= 0
  }

  lemma ContainsChar(s: String, c: char)
    ensures Contains(s, [c]) <==> c in s
  {
    if c in s {
      var j :| 0 <= j < |s| && s[j] == c;
      assert s[j..j + 1] == [c];
      if Find(s, [c]) < 0 {
        FindIsFirst(s, [c], j);
      }
    }
    if Contains(s, [c]) {
      var j := Find(s, [c]);
      assert s[j..j + 1][0] == s[j];
    }
  }

  /** The text before the first occurrence of `pat` does not contain `pat`. */
  lemma NoOccurrenceInPrefix(s: String, pat: String, i: int)
    requires |pat| > 0 && i == Find(s, pat) && i >= 0
    ensures !Contains(s[..i], pat)
  {
    var k := Find(s[..i], pat);
    if k >= 0 {
      assert s[..i][k..k + |pat|] == s[k..k + |pat|];
      FindIsFirst(s, pat, k);
    }
  }

  /** `pat in s` holds exactly when `pat` occurs at some index of `s`. */
  lemma ContainsIffOccurs(s: String, pat: String)
    ensures Contains(s, pat) <==> exists j :: OccursAt(s, pat, j)
  {
    if exists j :: OccursAt(s, pat, j) {
      var j :| OccursAt(s, pat, j);
      if Find(s, pat) < 0 {
        FindIsFirst(s, pat, j);
      }
    }
  }

  /** Every character of a pattern that occurs in `s` is a character of `s`. */
  lemma OccursChars(s: String, pat: String, j: int)
    requires OccursAt(s, pat, j)
    ensures forall c :: c in pat ==> c in s
  {
    forall c | c in pat
      ensures c in s
    {
      var k :| 0 <= k < |pat| && pat[k] == c;
      assert s[j..j + |pat|][k] == s[j + k];
    }
  }

  lemma ContainsChars(s: String, pat: String)
    requires Contains(s, pat)
    ensures forall c :: c in pat ==> c in s
  {
    OccursChars(s, pat, Find(s, pat));
  }

  lemma OccursInLeft(a: String, b: String, pat: String, j: int)
    requires 0 <= j && j + |pat| <= |a|
    ensures OccursAt(a + b, pat, j) <==> OccursAt(a, pat, j)
  {
    assert (a + b)[j..j + |pat|] == a[j..j + |pat|];
  }

  lemma OccursInRight(a: String, b: String, pat: String, j: int)
    requires |a| <= j
    ensures OccursAt(a + b, pat, j) <==> OccursAt(b, pat, j - |a|)
  {
    var s := a + b;
    if j + |pat| <= |s| {
      assert s[|a|..] == b;
      assert s[j..j + |pat|] == s[|a|..][j - |a|..j - |a| + |pat|];
    }
  }

  lemma OccursAcrossSeam(a: String, b: String, pat: String, j: int)
    requires 0 <= j < |a| < j + |pat| <= |a| + |b|
    ensures OccursAt(a + b, pat, j) ==> a[|a| - 1] in pat && b[0] in pat
  {
    var w := (a + b)[j..j + |pat|];
    assert w[|a| - 1 - j] == a[|a| - 1] && w[|a| - j] == b[0];
  }

  lemma ContainsCharsIf(s: String, pat: String)
    ensures Contains(s, pat) ==> forall c :: c in pat ==> c in s
  {
    if Contains(s, pat) {
      ContainsChars(s, pat);
    }
  }

  /** A pattern without `c` cannot straddle a `c` at the seam of `a + b`, so it
      occurs in `a + b` only if it occurs in `a` or in `b`. */
  lemma NoOccurrenceAcross(a: String, b: String, pat: String, c: char)
    requires |pat| > 0 && c !in pat
    requires a == [] || b == [] || a[|a| - 1] == c || b[0] == c
    requires !Contains(a, pat) && !Contains(b, pat)
    ensures !Contains(a + b, pat)
  {
    ContainsIffOccurs(a, pat);
    ContainsIffOccurs(b, pat);
    ContainsIffOccurs(a + b, pat);
    forall j | 0 <= j && j + |pat| <= |a + b|
      ensures !OccursAt(a + b, pat, j)
    {
      if j + |pat| <= |a| {
        OccursInLeft(a, b, pat, j);
      } else if j >= |a| {
        OccursInRight(a, b, pat, j);
      } else {
        OccursAcrossSeam(a, b, pat, j);
      }
    }
  }

  lemma NotInSingleton(pat: String, c: char)
    requires |pat| > 0 && c !in pat
    ensures !Contains([c], pat)
  {
    if |pat| == 1 {
      assert pat[0] != c;
      assert [c][0..1] != pat;
      assert FindFrom([c], pat, 1) == -1;
    }
  }

  /** Appending one more part to a join adds the separator and the part. */
  lemma {:induction false} JoinSnoc(sep: String, xs: seq<String>, x: String)
    requires |xs| >= 1
    ensures Join(sep, xs + [x]) == Join(sep, xs) + sep + x
  {
    if |xs| == 1 {
      assert (xs + [x])[1..] == [x];
    } else {
      JoinSnoc(sep, xs[1..], x);
      assert (xs + [x])[1..] == xs[1..] + [x];
    }
  }

  /** Every character of a part is a character of the joined text. */
  lemma {:induction false} JoinKeepsChars(sep: String, parts: seq<String>)
    ensures forall k, ch :: 0 <= k < |parts| && ch in parts[k] ==> ch in Join(sep, parts)
  {
    if |parts| > 1 {
      JoinKeepsChars(sep, parts[1..]);
      assert forall k :: 1 <= k < |parts| ==> parts[1..][k - 1] == parts[k];
    }
  }

  /** `s.split(sep)` for a non-empty separator: the pieces between the
      occurrences of `sep` found left to right. */
  function Split(s: String, sep: String): (r: seq<String>)
    requires |sep| > 0
    ensures |r| >= 1
    decreases |s|
  {
    var i := Find(s, sep);
    if i < 0 then [s] else [s[..i]] + Split(s[i + |sep|..], sep)
  }

  /** Joining the pieces with the separator gives back the original text. */
  lemma {:induction false} SplitJoin(s: String, sep: String)
    requires |sep| > 0
    ensures Join(sep, Split(s, sep)) == s
    decreases |s|
  {
    var i := Find(s, sep);
    if i >= 0 {
      var head, tail := s[..i], s[i + |sep|..];
      var rest := Split(tail, sep);
      SplitJoin(tail, sep);
      assert s[i..i + |sep|] == sep;
      assert s == head + s[i..i + |sep|] + tail;
      assert ([head] + rest)[1..] == rest;
    }
  }

  /** No piece contains the separator. */
  lemma {:induction false} SplitPiecesFree(s: String, sep: String)
    requires |sep| > 0
    ensures forall k :: 0 <= k < |Split(s, sep)| ==> !Contains(Split(s, sep)[k], sep)
    decreases |s|
  {
    var i := Find(s, sep);
    if i >= 0 {
      NoOccurrenceInPrefix(s, sep, i);
      SplitPiecesFree(s[i + |sep|..], sep);
    }
  }

  lemma SplitNoSep(s: String, sep: String)
    requires |sep| > 0 && !Contains(s, sep)
    ensures Split(s, sep) == [s]
  {
  }

  /** One step of `Split` at the first occurrence `i` of `sep`. */
  lemma SplitStep(s: String, sep: String, i: int)
    requires |sep| > 0 && i == Find(s, sep) && i >= 0
    ensures Split(s, sep) == [s[..i]] + Split(s[i + |sep|..], sep)
  {
  }

  lemma LastCons<T>(x: T, xs: seq<T>)
    requires |xs| > 0
    ensures Last([x] + xs) == Last(xs)
  {
  }

  lemma LastStep(s: String, sep: String, i: int)
    requires |sep| > 0 && i == Find(s, sep) && i >= 0
    ensures Last(Split(s, sep)) == Last(Split(s[i + |sep|..], sep))
  {
    SplitStep(s, sep, i);
    LastCons(s[..i], Split(s[i + |sep|..], sep));
  }

  /** A suffix of the text after index `k` is a suffix of the whole text. */
  lemma SuffixOfSuffix(s: String, k: int, r: String)
    requires 0 <= k <= |s| && |r| <= |s| - k && r == s[k..][|s| - k - |r|..]
    ensures r == s[|s| - |r|..]
  {
  }

  lemma {:induction false} SplitLastSuffix(s: String, sep: String)
    requires |sep| > 0
    ensures |Last(Split(s, sep))| <= |s|
    ensures Last(Split(s, sep)) == s[|s| - |Last(Split(s, sep))|..]
    ensures !Contains(s, sep) ==> Last(Split(s, sep)) == s
    decreases |s|
  {
    var i := Find(s, sep);
    if i >= 0 {
      var tail := s[i + |sep|..];
      SplitLastSuffix(tail, sep);
      LastStep(s, sep, i);
      SuffixOfSuffix(s, i + |sep|, Last(Split(tail, sep)));
    }
  }

  /** An occurrence just before a suffix of the text after an occurrence at `i`. */
  lemma PrecededAfter(s: String, sep: String, i: int, r: String)
    requires OccursAt(s, sep, i) && |r| <= |s| - i - |sep|
    requires var tail := s[i + |sep|..];
      r == tail || OccursAt(tail, sep, |tail| - |r| - |sep|)
    ensures |r| + |sep| <= |s| && OccursAt(s, sep, |s| - |r| - |sep|)
  {
    var tail := s[i + |sep|..];
    if r != tail {
      OccursInSuffix(s, sep, i + |sep|, |tail| - |r| - |sep|);
    }
  }

  lemma {:induction false} SplitLastPreceded(s: String, sep: String)
    requires |sep| > 0 && Contains(s, sep)
    ensures |Last(Split(s, sep))| + |sep| <= |s|
    ensures OccursAt(s, sep, |s| - |Last(Split(s, sep))| - |sep|)
    decreases |s|
  {
    var i := Find(s, sep);
    var tail := s[i + |sep|..];
    var r := Last(Split(tail, sep));
    LastStep(s, sep, i);
    LastPreceded(s, sep, i, tail, r);
  }

  lemma {:induction false} LastPreceded(s: String, sep: String, i: int, tail: String, r: String)
    requires |sep| > 0 && Contains(s, sep) && i == Find(s, sep) && tail == s[i + |sep|..]
    requires r == Last(Split(tail, sep))
    ensures |r| + |sep| <= |s|
    ensures OccursAt(s, sep, |s| - |r| - |sep|)
    decreases |s|, 0
  {
    SplitLastSuffix(tail, sep);
    if Contains(tail, sep) {
      SplitLastPreceded(tail, sep);
    }
    PrecededAfter(s, sep, i, r);
  }

  /** The text after the last occurrence of `sep` (Python's `s.split(sep)[-1]`)
      is a suffix of `s` without `sep`, preceded by `sep` whenever `s` holds it. */
  lemma SplitLastSpec(s: String, sep: String)
    requires |sep| > 0
    ensures |Last(Split(s, sep))| <= |s|
    ensures Last(Split(s, sep)) == s[|s| - |Last(Split(s, sep))|..]
    ensures !Contains(Last(Split(s, sep)), sep)
    ensures Contains(s, sep) ==> OccursAt(s, sep, |s| - |Last(Split(s, sep))| - |sep|)
    ensures !Contains(s, sep) ==> Last(Split(s, sep)) == s
  {
    SplitLastSuffix(s, sep);
    SplitPiecesFree(s, sep);
    if Contains(s, sep) {
      SplitLastPreceded(s, sep);
    }
  }

  /** The text before the first occurrence of `sep` (Python's `s.split(sep)[0]`)
      is a prefix of `s` without `sep`, followed by `sep` whenever `s` holds it. */
  lemma SplitFirstSpec(s: String, sep: String)
    requires |sep| > 0
    ensures var r := Split(s, sep)[0];
      && r == s[..|r|] && !Contains(r, sep)
      && (Contains(s, sep) ==> OccursAt(s, sep, |r|))
      && (!Contains(s, sep) ==> r == s)
  {
    SplitPiecesFree(s, sep);
  }

  lemma OccursAtChar(s: String, c: char, j: int)
    requires OccursAt(s, [c], j)
    ensures s[j] == c
  {
    assert s[j..j + 1][0] == s[j];
  }

  /** `s.split(sep)[-1]` for a one-character `sep`: the suffix after the
      last occurrence of that character. */
  lemma SplitLastChar(s: String, sep: String)
    requires |sep| == 1
    ensures var r := Last(Split(s, sep));
      && |r| <= |s| && r == s[|s| - |r|..] && sep[0] !in r
      && (sep[0] in s ==> |r| < |s| && s[|s| - |r| - 1] == sep[0])
      && (sep[0] !in s ==> r == s)
  {
    var c := sep[0];
    assert sep == [c];
    var r := Last(Split(s, sep));
    SplitLastSpec(s, sep);
    ContainsChar(s, c);
    ContainsChar(r, c);
    if c in s {
      OccursAtChar(s, c, |s| - |r| - 1);
    }
  }

  /** No piece of `s.split(sep)` holds a character that `s` lacks. */
  lemma SplitPieceLacks(s: String, sep: String, k: int, ch: char)
    requires |sep| > 0 && 0 <= k < |Split(s, sep)| && ch !in s
    ensures ch !in Split(s, sep)[k]
  {
    SplitKeepsChars(s, sep);
  }

  /** No piece of `s.split(sep)` holds the one character of `sep`. */
  lemma SplitPieceFreeChar(s: String, sep: String, k: int)
    requires |sep| == 1 && 0 <= k < |Split(s, sep)|
    ensures sep[0] !in Split(s, sep)[k]
  {
    assert sep == [sep[0]];
    SplitPiecesFree(s, sep);
    ContainsChar(Split(s, sep)[k], sep[0]);
  }

  /** `s.split(sep)[0]` for a one-character `sep`: the prefix before the first
      occurrence of that character. */
  lemma SplitFirstChar(s: String, sep: String)
    requires |sep| == 1
    ensures var r := Split(s, sep)[0];
      && r == s[..|r|] && sep[0] !in r
      && (sep[0] in s ==> |r| < |s| && s[|r|] == sep[0])
      && (sep[0] !in s ==> r == s)
  {
    var c := sep[0];
    assert sep == [c];
    var r := Split(s, sep)[0];
    SplitFirstSpec(s, sep);
    ContainsChar(s, c);
    ContainsChar(r, c);
    if c in s {
      OccursAtChar(s, c, |r|);
    }
  }

  /** Splitting on a single character `c` at its first occurrence. */
  lemma SplitAround(a: String, c: char, b: String)
    requires c !in a
    ensures Split(a + [c] + b, [c]) == [a] + Split(b, [c])
  {
    var s := a + [c] + b;
    assert s[|a|..|a| + 1] == [c];
    var i := Find(s, [c]);
    if i < 0 || i > |a| {
      FindIsFirst(s, [c], |a|);
    } else if i < |a| {
      OccursAtChar(s, c, i);
    }
    assert i == |a|;
    SplitStep(s, [c], i);
    assert s[..|a|] == a;
    assert s[|a| + 1..] == b;
  }

  /** Splitting on a character undoes joining on it, provided no part holds it. */
  lemma {:induction false} JoinSplitChar(parts: seq<String>, c: char)
    requires |parts| >= 1 && forall k :: 0 <= k < |parts| ==> c !in parts[k]
    ensures Split(Join([c], parts), [c]) == parts
  {
    if |parts| == 1 {
      ContainsChar(parts[0], c);
      SplitNoSep(parts[0], [c]);
    } else {
      var rest := parts[1..];
      JoinSplitChar(rest, c);
      assert Join([c], parts) == parts[0] + [c] + Join([c], rest);
      SplitAround(parts[0], c, Join([c], rest));
      assert [parts[0]] + rest == parts;
    }
  }

  /** Every character of a piece of `s.split(sep)` is a character of `s`. */
  lemma SplitKeepsChars(s: String, sep: String)
    requires |sep| > 0
    ensures forall k, ch :: 0 <= k < |Split(s, sep)| && ch in Split(s, sep)[k] ==> ch in s
  {
    SplitJoin(s, sep);
    JoinKeepsChars(sep, Split(s, sep));
  }

  lemma FindCons(s: String, pat: String)
    requires 0 < |pat| <= |s| && s[..|pat|] != pat
    ensures var k := Find(s[1..], pat); Find(s, pat) == if k < 0 then -1 else k + 1
  {
    assert s[0..|pat|] == s[..|pat|];
    FindFromShift(s, pat, 0);
  }

  lemma SplitCons(s: String, pat: String)
    requires 0 < |pat| <= |s| && s[..|pat|] != pat
    ensures var t := Split(s[1..], pat);
      Split(s, pat) == [[s[0]] + t[0]] + t[1..]
  {
    var k := Find(s[1..], pat);
    FindCons(s, pat);
    var t := Split(s[1..], pat);
    if k < 0 {
      assert t == [s[1..]];
      assert [s[0]] + s[1..] == s;
    } else {
      var rest := Split(s[k + 1 + |pat|..], pat);
      SplitStep(s, pat, k + 1);
      assert s[1..][k + |pat|..] == s[k + 1 + |pat|..];
      SplitStep(s[1..], pat, k);
      assert t == [s[1..][..k]] + rest;
      assert [s[0]] + s[1..][..k] == s[..k + 1];
    }
  }

  /** `s.replace(pat, "")`: occurrences of `pat`, found left to right without
      overlap, are dropped. */
  function RemoveAll(s: String, pat: String): (r: String)
    requires |pat| > 0
    ensures |r| <= |s|
    decreases |s|
  {
    if |s| < |pat| then s
    else if s[..|pat|] == pat then RemoveAll(s[|pat|..], pat)
    else [s[0]] + RemoveAll(s[1..], pat)
  }

  /** `s.replace(pat, "") == "".join(s.split(pat))`: the two Python idioms agree. */
  lemma {:induction false} RemoveAllIsJoinOfSplit(s: String, pat: String)
    requires |pat| > 0
    ensures RemoveAll(s, pat) == Join("", Split(s, pat))
    decreases |s|
  {
    if |s| < |pat| {
      assert Find(s, pat) == -1;
    } else if s[..|pat|] == pat {
      assert OccursAt(s, pat, 0);
      RemoveAllIsJoinOfSplit(s[|pat|..], pat);
      JoinConcatCons("", Split(s[|pat|..], pat));
    } else {
      RemoveAllIsJoinOfSplit(s[1..], pat);
      var t := Split(s[1..], pat);
      SplitCons(s, pat);
      JoinConcatCons([s[0]] + t[0], t[1..]);
      JoinConcatCons(t[0], t[1..]);
      assert [t[0]] + t[1..] == t;
    }
  }

  /** `s` with every `c` removed, the other characters kept in order. */
  function Without(s: String, c: char): (r: String)
  {
    if s == [] then [] else (if s[0] == c then [] else [s[0]]) + Without(s[1..], c)
  }

  lemma {:induction false} RemoveCharIsWithout(s: String, c: char)
    ensures RemoveAll(s, [c]) == Without(s, c)
    decreases |s|
  {
    if s != [] {
      RemoveCharIsWithout(s[1..], c);
      assert s[..1] == [s[0]];
    }
  }

  /** How many times `c` occurs in `s`. */
  function Count(s: String, c: char): nat
  {
    if s == [] then 0 else (if s[0] == c then 1 else 0) + Count(s[1..], c)
  }

  lemma {:induction false} CountAppend(a: String, b: String, c: char)
    ensures Count(a + b, c) == Count(a, c) + Count(b, c)
  {
    if a != [] {
      CountAppend(a[1..], b, c);
      assert (a + b)[1..] == a[1..] + b;
    } else {
      assert a + b == b;
    }
  }

  lemma {:induction false} CountAbsent(s: String, c: char)
    requires c !in s
    ensures Count(s, c) == 0
  {
    if s != [] {
      CountAbsent(s[1..], c);
    }
  }

  /** Splitting on a single character gives one piece more than it has occurrences. */
  lemma {:induction false} SplitCharCount(s: String, c: char)
    ensures |Split(s, [c])| == Count(s, c) + 1
    decreases |s|
  {
    ContainsChar(s, c);
    if c in s {
      var i := Find(s, [c]);
      assert s[i..i + 1] == [c];
      var a, b := s[..i], s[i + 1..];
      NoOccurrenceInPrefix(s, [c], i);
      ContainsChar(a, c);
      assert a + [c] + b == s;
      SplitAround(a, c, b);
      SplitCharCount(b, c);
      CountAppend(a + [c], b, c);
      CountAppend(a, [c], c);
      CountAbsent(a, c);
    } else {
      CountAbsent(s, c);
    }
  }

  /** `s.rstrip(c)` for a single character `c`. */
  function RStrip(s: String, c: char): (r: String)
    ensures |r| <= |s| && r == s[..|r|]
    ensures r == [] || r[|r| - 1] != c
    ensures forall i :: |r| <= i < |s| ==> s[i] == c
  {
    if |s| > 0 && s[|s| - 1] == c then RStrip(s[..|s| - 1], c) else s
  }

  /** `rstrip` leaves a text without `c` unchanged. */
  lemma RStripNothing(s: String, c: char)
    requires c !in s
    ensures RStrip(s, c) == s
  {
    if |s| > 0 {
      assert s[|s| - 1] in s;
    }
  }

}
