/** The news crawler: how article text is normalised, which archive month
    pages it visits, how it turns links into article URLs, which articles
    it keeps, and how a background crawl merges into the cache. Fetching
    and HTML parsing are outside the model: each page's extracted links
    and texts are handed in through `Net`, and the clock through `now`. */
module NewsCrawler {
  import opened Wrappers
  import opened Text
  import opened NewsTypes
  import opened NewsCache

  // ---------------------------------------------------------------------
  // cleanContent
  // ---------------------------------------------------------------------

  /** `s` without its leading characters of class `p`. */
  function DropRun(s: string, p: char -> bool): (r: string)
    ensures |r| <= |s| && r == s[|s| - |r|..]
    ensures forall i :: 0 <= i < |s| - |r| ==> p(s[i])
    ensures r == "" || !p(r[0])
    decreases |s|
  {
    if |s| > 0 && p(s[0]) then DropRun(s[1..], p) else s
  }

  /** `s.replace(/x+/g, c)` for a character class `x` given as `p`: every
      maximal run of characters of the class becomes the one character
      `c`. */
  function CollapseRuns(s: string, p: char -> bool, c: char): (r: string)
    ensures |r| <= |s|
    ensures |s| == 0 <==> |r| == 0
    ensures |s| > 0 && p(s[0]) ==> r[0] == c
    ensures |s| > 0 && !p(s[0]) ==> r[0] == s[0]
    decreases |s|
  {
    if |s| == 0 then ""
    else if p(s[0]) then
      [c] + CollapseRuns(DropRun(s, p), p, c)
    else
      [s[0]] + CollapseRuns(s[1..], p, c)
  }

  /** Every character of the class is `c`, and no two are adjacent. */
  predicate SingleRuns(t: string, p: char -> bool, c: char) {
    && (forall i :: 0 <= i < |t| && p(t[i]) ==> t[i] == c)
    && (forall i :: 0 <= i < |t| - 1 ==> !(p(t[i]) && p(t[i + 1])))
  }

  /** Putting `x` in front of text with single runs keeps single runs
      when `x` is `c`, or outside the class, and the text does not open
      with a class character. */
  lemma SingleRunsCons(x: char, t: string, p: char -> bool, c: char)
    requires SingleRuns(t, p, c)
    requires p(x) ==> x == c
    requires t == "" || !p(x) || !p(t[0])
    ensures SingleRuns([x] + t, p, c)
  {
    var r := [x] + t;
    assert forall i :: 1 <= i < |r| ==> r[i] == t[i - 1];
  }

  /** After collapsing, every run of the class is the single character
      `c`. */
  lemma {:induction false} CollapseRunsSingle(s: string, p: char -> bool, c: char)
    ensures SingleRuns(CollapseRuns(s, p, c), p, c)
    decreases |s|
  {
    if |s| > 0 {
      if p(s[0]) {
        var d := DropRun(s, p);
        CollapseRunsSingle(d, p, c);
        SingleRunsCons(c, CollapseRuns(d, p, c), p, c);
      } else {
        CollapseRunsSingle(s[1..], p, c);
        SingleRunsCons(s[0], CollapseRuns(s[1..], p, c), p, c);
      }
    }
  }

  /** Text with no character of the class is left as it is. */
  lemma {:induction false} CollapseRunsAbsent(s: string, p: char -> bool, c: char)
    requires forall i :: 0 <= i < |s| ==> !p(s[i])
    ensures CollapseRuns(s, p, c) == s
    decreases |s|
  {
    if |s| > 0 {
      CollapseRunsAbsent(s[1..], p, c);
    }
  }

  /** Dropping the leading run of `a + b` drops only within `a` when `a`
      ends outside the class. */
  lemma {:induction false} DropRunAppend(a: string, b: string, p: char -> bool)
    requires |a| > 0 && !p(a[|a| - 1])
    ensures DropRun(a + b, p) == DropRun(a, p) + b
    decreases |a|
  {
    if p(a[0]) {
      assert (a + b)[1..] == a[1..] + b;
      DropRunAppend(a[1..], b, p);
    }
  }

  /** Collapsing works piece by piece across a cut that does not split a
      run: text that is empty or ends outside the class collapses on its
      own. */
  lemma {:induction false} CollapseRunsAppend(a: string, b: string, p: char -> bool, c: char)
    requires a == "" || !p(a[|a| - 1])
    ensures CollapseRuns(a + b, p, c) == CollapseRuns(a, p, c) + CollapseRuns(b, p, c)
    decreases |a|
  {
    if |a| == 0 {
      assert a + b == b;
    } else {
      var ab := a + b;
      assert ab[0] == a[0];
      var head, rest: string;
      if p(a[0]) {
        head, rest := [c], DropRun(a, p);
        DropRunAppend(a, b, p);
        DropRunKeepsLast(a, p);
      } else {
        head, rest := [a[0]], a[1..];
        assert ab[1..] == rest + b;
      }
      assert CollapseRuns(ab, p, c) == head + CollapseRuns(rest + b, p, c);
      assert CollapseRuns(a, p, c) == head + CollapseRuns(rest, p, c);
      CollapseRunsAppend(rest, b, p, c);
      ConcatAssoc(head, CollapseRuns(rest, p, c), CollapseRuns(b, p, c));
    }
  }

  /** Joining is associative; stated apart so the step costs little. */
  lemma ConcatAssoc<T>(x: seq<T>, y: seq<T>, z: seq<T>)
    ensures x + (y + z) == (x + y) + z
  {
  }

  /** Text that ends outside the class keeps its last character when its
      leading run is dropped. */
  lemma DropRunKeepsLast(a: string, p: char -> bool)
    requires |a| > 0 && !p(a[|a| - 1])
    ensures DropRun(a, p) != "" && DropRun(a, p)[|DropRun(a, p)| - 1] == a[|a| - 1]
  {
  }

  /** A non-empty run of the class collapses to the one character `c`. */
  lemma CollapseRunsOfRun(run: string, p: char -> bool, c: char)
    requires |run| > 0 && forall i :: 0 <= i < |run| ==> p(run[i])
    ensures CollapseRuns(run, p, c) == [c]
  {
  }

  /** Dropping the leading run of `run + t` leaves `t` when `t` does not
      open with a class character. */
  lemma {:induction false} DropRunOfRun(run: string, t: string, p: char -> bool)
    requires forall i :: 0 <= i < |run| ==> p(run[i])
    requires t == "" || !p(t[0])
    ensures DropRun(run + t, p) == t
    decreases |run|
  {
    if |run| == 0 {
      assert run + t == t;
    } else {
      assert (run + t)[1..] == run[1..] + t;
      DropRunOfRun(run[1..], t, p);
    }
  }

  /** A run at the front becomes one `c` before the rest is collapsed. */
  lemma CollapseRunsOfRunThen(run: string, t: string, p: char -> bool, c: char)
    requires |run| > 0 && forall i :: 0 <= i < |run| ==> p(run[i])
    requires t == "" || !p(t[0])
    ensures CollapseRuns(run + t, p, c) == [c] + CollapseRuns(t, p, c)
  {
    DropRunOfRun(run, t, p);
    assert (run + t)[0] == run[0];
  }

  /** A run of the class between two words becomes the one character
      `c`, as the two spaces of `a  b` become the one of `a b`. */
  lemma CollapseRunsBetweenWords(a: string, run: string, b: string, p: char -> bool, c: char)
    requires forall i :: 0 <= i < |a| ==> !p(a[i])
    requires |run| > 0 && forall i :: 0 <= i < |run| ==> p(run[i])
    requires forall i :: 0 <= i < |b| ==> !p(b[i])
    ensures CollapseRuns(a + run + b, p, c) == a + [c] + b
  {
    ConcatAssoc(a, run, b);
    CollapseRunsAppend(a, run + b, p, c);
    CollapseRunsAbsent(a, p, c);
    CollapseRunsOfRunThen(run, b, p, c);
    CollapseRunsAbsent(b, p, c);
    ConcatAssoc(a, [c], b);
  }

  predicate IsLineFeed(c: char) {
    c == '\n'
  }

  /** Text as `cleanContent` leaves it: no whitespace at either end, every
      whitespace character a plain space, and no two of them in a row. */
  predicate Normalised(t: string) {
    && (t == "" || (!IsSpace(t[0]) && !IsSpace(t[|t| - 1])))
    && SingleSpaced(t)
  }

  /** Every whitespace character a plain space, and no two in a row. */
  predicate SingleSpaced(t: string) {
    SingleRuns(t, IsSpace, ' ')
  }

  /** `cleanContent`: whitespace runs become one space, line-feed runs one
      line feed (there are none left by then), and the ends are trimmed. */
  function CleanContent(s: string): (r: string)
    ensures Normalised(r)
    ensures |r| <= |s|
  {
    var spaced := CollapseRuns(s, IsSpace, ' ');
    CollapseRunsSingle(s, IsSpace, ' ');
    LineFeedPassIsIdentity(spaced);
    TrimmedIsNormalised(spaced);
    Trim(CollapseRuns(spaced, IsLineFeed, '\n'))
  }

  /** After the whitespace pass no line feed is left, so the line-feed
      pass changes nothing. */
  lemma LineFeedPassIsIdentity(spaced: string)
    requires SingleSpaced(spaced)
    ensures CollapseRuns(spaced, IsLineFeed, '\n') == spaced
  {
    assert forall i :: 0 <= i < |spaced| ==> !IsLineFeed(spaced[i]);
    CollapseRunsAbsent(spaced, IsLineFeed, '\n');
  }

  /** Trimming text whose whitespace is single spaces normalises it. */
  lemma TrimmedIsNormalised(a: string)
    requires SingleSpaced(a)
    ensures Normalised(Trim(a))
  {
    var r := Trim(a);
    var k: nat :| SpacePaddedAt(a, r, k);
    UnpaddedSliceIsNormalised(a, r, k);
  }

  /** A slice of single-spaced text with no whitespace at either end is
      normalised. */
  lemma UnpaddedSliceIsNormalised(a: string, r: string, k: nat)
    requires SingleSpaced(a) && SpacePaddedAt(a, r, k)
    requires r == "" || (!IsSpace(r[0]) && !IsSpace(r[|r| - 1]))
    ensures Normalised(r)
  {
    SingleSpacesInSlice(a, k, k + |r|);
  }

  /** Every slice of text whose whitespace is single spaces is such text. */
  lemma SingleSpacesInSlice(a: string, lo: nat, hi: nat)
    requires lo <= hi <= |a|
    requires SingleSpaced(a)
    ensures SingleSpaced(a[lo..hi])
  {
    assert forall i :: 0 <= i < hi - lo ==> a[lo..hi][i] == a[lo + i];
  }

  /** Text already in normal form comes back unchanged. */
  lemma CleanContentOfNormalised(t: string)
    requires Normalised(t)
    ensures CleanContent(t) == t
  {
    CollapseRunsFixed(t, IsSpace, ' ');
    LineFeedPassIsIdentity(t);
  }

  /** Text in normal form is left alone by both trimming and cleaning. */
  lemma NormalisedIsFixed(t: string)
    requires Normalised(t)
    ensures Trim(t) == t && CleanContent(t) == t
  {
    TrimUnpadded(t);
    CleanContentOfNormalised(t);
  }

  /** So cleaning twice is cleaning once. */
  lemma CleanContentIdempotent(s: string)
    ensures CleanContent(CleanContent(s)) == CleanContent(s)
  {
    CleanContentOfNormalised(CleanContent(s));
  }

  /** A string whose runs are already single `c`s collapses to itself. */
  lemma {:induction false} CollapseRunsFixed(t: string, p: char -> bool, c: char)
    requires SingleRuns(t, p, c)
    ensures CollapseRuns(t, p, c) == t
    decreases |t|
  {
    if |t| > 0 {
      var tail := t[1..];
      assert SingleRuns(tail, p, c) by {
        assert forall i :: 0 <= i < |tail| ==> tail[i] == t[i + 1];
      }
      CollapseRunsFixed(tail, p, c);
      assert t == [t[0]] + tail;
      if p(t[0]) {
        assert tail == "" || !p(tail[0]);
        assert DropRun(t, p) == DropRun(tail, p) == tail;
      }
    }
  }

  /** The characters of `s` outside the class `p`, in order. */
  function Without(s: string, p: char -> bool): (r: string)
    ensures |r| <= |s|
    decreases |s|
  {
    if |s| == 0 then "" else (if p(s[0]) then "" else [s[0]]) + Without(s[1..], p)
  }

  lemma {:induction false} WithoutConcat(a: string, b: string, p: char -> bool)
    ensures Without(a + b, p) == Without(a, p) + Without(b, p)
    decreases |a|
  {
    if |a| == 0 {
      assert a + b == b;
    } else {
      assert (a + b)[1..] == a[1..] + b;
      WithoutConcat(a[1..], b, p);
    }
  }

  lemma {:induction false} WithoutNone(a: string, p: char -> bool)
    requires forall i :: 0 <= i < |a| ==> p(a[i])
    ensures Without(a, p) == ""
    decreases |a|
  {
    if |a| > 0 {
      WithoutNone(a[1..], p);
    }
  }

  /** Dropping a leading run of the class loses nothing outside it. */
  lemma DropRunKeepsOthers(s: string, p: char -> bool)
    ensures Without(DropRun(s, p), p) == Without(s, p)
  {
    var r := DropRun(s, p);
    var k := |s| - |r|;
    assert s == s[..k] + r;
    WithoutConcat(s[..k], r, p);
    WithoutNone(s[..k], p);
  }

  /** Collapsing runs into a character of the class loses nothing outside
      it. */
  lemma {:induction false} CollapseRunsKeepsOthers(s: string, p: char -> bool, c: char)
    requires p(c)
    ensures Without(CollapseRuns(s, p, c), p) == Without(s, p)
    decreases |s|
  {
    if |s| > 0 {
      if p(s[0]) {
        var t := DropRun(s, p);
        CollapseRunsKeepsOthers(t, p, c);
        DropRunKeepsOthers(s, p);
        assert ([c] + CollapseRuns(t, p, c))[1..] == CollapseRuns(t, p, c);
      } else {
        CollapseRunsKeepsOthers(s[1..], p, c);
        assert ([s[0]] + CollapseRuns(s[1..], p, c))[1..] == CollapseRuns(s[1..], p, c);
      }
    }
  }

  /** Trimming loses no character other than whitespace. */
  lemma TrimKeepsText(s: string)
    ensures Without(Trim(s), IsSpace) == Without(s, IsSpace)
  {
    TrimStartKeepsText(s);
    TrimEndKeepsText(TrimStart(s));
  }

  lemma TrimStartKeepsText(s: string)
    ensures Without(TrimStart(s), IsSpace) == Without(s, IsSpace)
  {
    SpacePrefixCutKeepsText(s, TrimStart(s));
  }

  /** Cutting a whitespace prefix keeps the other characters. */
  lemma SpacePrefixCutKeepsText(s: string, r: string)
    requires |r| <= |s| && r == s[|s| - |r|..]
    requires forall i :: 0 <= i < |s| - |r| ==> IsSpace(s[i])
    ensures Without(r, IsSpace) == Without(s, IsSpace)
  {
    var k := |s| - |r|;
    assert s == s[..k] + r;
    WithoutConcat(s[..k], r, IsSpace);
    WithoutNone(s[..k], IsSpace);
  }

  lemma TrimEndKeepsText(s: string)
    ensures Without(TrimEnd(s), IsSpace) == Without(s, IsSpace)
  {
    SpaceSuffixCutKeepsText(s, TrimEnd(s));
  }

  /** Cutting a whitespace suffix keeps the other characters. */
  lemma SpaceSuffixCutKeepsText(s: string, r: string)
    requires |r| <= |s| && r == s[..|r|]
    requires forall i :: |r| <= i < |s| ==> IsSpace(s[i])
    ensures Without(r, IsSpace) == Without(s, IsSpace)
  {
    assert s == r + s[|r|..];
    WithoutConcat(r, s[|r|..], IsSpace);
    WithoutNone(s[|r|..], IsSpace);
  }

  /** Cleaning only ever removes or replaces whitespace: the other
      characters survive, in order. */
  lemma CleanContentKeepsText(s: string)
    ensures Without(CleanContent(s), IsSpace) == Without(s, IsSpace)
  {
    var spaced := CollapseRuns(s, IsSpace, ' ');
    CollapseRunsKeepsOthers(s, IsSpace, ' ');
    CollapseRunsSingle(s, IsSpace, ' ');
    LineFeedPassIsIdentity(spaced);
    TrimKeepsText(spaced);
  }

  // ---------------------------------------------------------------------
  // Archive years
  // ---------------------------------------------------------------------

  /** The crawler's configuration. */
  const BaseUrl: string := "https://highspell.com"
  const MaxArticles: nat := 100

  const ArchivePath: string := "/news/archives/"

  /** `/\/news\/archives\/(\d{4})/` matches at index `i` of `s`. */
  predicate YearAt(s: string, i: nat) {
    i + 19 <= |s| && s[i..i + 15] == ArchivePath && AllDigits(s[i + 15..i + 19])
  }

  /** The year a match captures, as `Number` reads it. */
  function YearOf(s: string, i: nat): nat
    requires YearAt(s, i)
  {
    DigitsValue(s[i + 15..i + 19])
  }

  /** `href.match(...)` without the global flag: the year of the leftmost
      match at or after `from`. */
  function FirstYear(s: string, from: nat): (r: Option<nat>)
    ensures r.None? <==> forall i: nat :: from <= i ==> !YearAt(s, i)
    ensures r.Some? ==> exists i: nat :: from <= i && YearAt(s, i) && r.value == YearOf(s, i)
                          && forall j: nat :: from <= j < i ==> !YearAt(s, j)
    decreases |s| - from
  {
    if from + 19 > |s| then None
    else if YearAt(s, from) then Some(YearOf(s, from))
    else FirstYear(s, from + 1)
  }

  /** Two matches never overlap: the pattern cannot start again inside
      itself. */
  lemma YearMatchesDoNotOverlap(s: string, i: nat, j: nat)
    requires YearAt(s, i) && YearAt(s, j) && i < j
    ensures i + 19 <= j
  {
    MatchShape(s, i);
    MatchShape(s, j);
  }

  /** A match starts with `/n`, and no `/` inside it is followed by `n`. */
  lemma MatchShape(s: string, i: nat)
    requires YearAt(s, i)
    ensures s[i] == '/' && s[i + 1] == 'n'
    ensures forall k :: i < k < i + 19 && s[k] == '/' ==> s[k + 1] != 'n'
  {
    forall k | 0 <= k < 15
      ensures s[i + k] == ArchivePath[k]
    {
      assert s[i..i + 15][k] == s[i + k];
    }
    forall k | i + 15 <= k < i + 19
      ensures IsDigit(s[k])
    {
      assert s[i + 15..i + 19][k - i - 15] == s[k];
    }
    ArchivePathShape();
    forall k | i < k < i + 19 && s[k] == '/'
      ensures s[k + 1] != 'n'
    {
      if k < i + 14 {
        assert s[k] == ArchivePath[k - i] && s[k + 1] == ArchivePath[k - i + 1];
      } else {
        assert IsDigit(s[k + 1]);
      }
    }
  }

  /** The path opens with `/n`, ends with `/`, and no `/` inside it is
      followed by `n`. */
  lemma ArchivePathShape()
    ensures |ArchivePath| == 15 && ArchivePath[0] == '/' && ArchivePath[1] == 'n' && ArchivePath[14] == '/'
    ensures forall k :: 0 < k < 14 && ArchivePath[k] == '/' ==> ArchivePath[k + 1] != 'n'
  {
  }

  /** `html.match(/.../g)` and the year each match carries, in order; a
      global match resumes after the previous one. */
  function AllYears(s: string, from: nat): (r: seq<nat>)
    ensures forall y :: y in r <==> exists i: nat :: from <= i && YearAt(s, i) && YearOf(s, i) == y
    decreases |s| - from
  {
    if from + 19 > |s| then []
    else if YearAt(s, from) then
      var rest := AllYears(s, from + 19);
      forall i: nat | from < i < from + 19
        ensures !YearAt(s, i)
      {
        if YearAt(s, i) {
          YearMatchesDoNotOverlap(s, from, i);
        }
      }
      [YearOf(s, from)] + rest
    else AllYears(s, from + 1)
  }

  /** The years of the links whose `href` is truthy and matches. */
  function LinkYears(hrefs: seq<Option<string>>): (r: seq<nat>)
    ensures forall y :: y in r <==>
              exists k :: 0 <= k < |hrefs| && hrefs[k].Some? && FirstYear(hrefs[k].value, 0) == Some(y)
    decreases |hrefs|
  {
    if |hrefs| == 0 then []
    else
      var h := hrefs[0];
      var rest := LinkYears(hrefs[1..]);
      assert forall k :: 1 <= k < |hrefs| ==> hrefs[k] == hrefs[1..][k - 1];
      if h.Some? && h.value != "" && FirstYear(h.value, 0).Some? then [FirstYear(h.value, 0).value] + rest
      else rest
  }

  predicate StrictlyIncreasing(xs: seq<nat>) {
    forall i, j :: 0 <= i < j < |xs| ==> xs[i] < xs[j]
  }

  function InsertYear(x: nat, xs: seq<nat>): (r: seq<nat>)
    requires StrictlyIncreasing(xs)
    ensures StrictlyIncreasing(r)
    ensures forall y :: y in r <==> y == x || y in xs
    decreases |xs|
  {
    if |xs| == 0 then [x]
    else if x < xs[0] then [x] + xs
    else if x == xs[0] then xs
    else
      var rest := InsertYear(x, xs[1..]);
      assert forall k :: 0 <= k < |xs[1..]| ==> xs[1..][k] > xs[0];
      assert forall k :: 0 <= k < |rest| ==> rest[k] in rest;
      assert forall y :: y in xs <==> y == xs[0] || y in xs[1..];
      [xs[0]] + rest
  }

  /** `Array.from(new Set(years)).sort((a, b) => a - b)`. */
  function SortedYears(years: seq<nat>): (r: seq<nat>)
    ensures StrictlyIncreasing(r)
    ensures forall y :: y in r <==> y in years
    decreases |years|
  {
    if |years| == 0 then []
    else
      assert forall y :: y in years <==> y == years[0] || y in years[1..];
      InsertYear(years[0], SortedYears(years[1..]))
  }

  /** A set has one ascending listing, so the order in which the years
      were found does not matter. */
  lemma {:induction false} AscendingListingIsUnique(a: seq<nat>, b: seq<nat>)
    requires StrictlyIncreasing(a) && StrictlyIncreasing(b)
    requires forall y :: y in a <==> y in b
    ensures a == b
    decreases |a|
  {
    if |a| > 0 {
      assert a[0] in a;
    }
    if |b| > 0 {
      assert b[0] in b;
    }
    if |a| > 0 && |b| > 0 {
      assert a[0] in b && b[0] in a;
      assert a[0] == b[0];
      forall y
        ensures y in a[1..] <==> y in b[1..]
      {
        assert y in a <==> y == a[0] || y in a[1..];
        assert y in b <==> y == b[0] || y in b[1..];
        assert y in a[1..] ==> y != a[0];
        assert y in b[1..] ==> y != b[0];
      }
      AscendingListingIsUnique(a[1..], b[1..]);
      assert a == [a[0]] + a[1..] && b == [b[0]] + b[1..];
    }
  }

  /** The years `crawlArchives` visits: those of the archive links, else
      those anywhere in the page text; no year at all is an error. */
  function ArchiveYears(linkHrefs: seq<Option<string>>, html: string): (r: Result<seq<nat>, string>)
    ensures r.Err? <==> |LinkYears(linkHrefs)| == 0 && |AllYears(html, 0)| == 0
    ensures r.Ok? ==> |r.value| > 0 && StrictlyIncreasing(r.value)
    ensures r.Ok? && |LinkYears(linkHrefs)| > 0 ==> forall y :: y in r.value <==> y in LinkYears(linkHrefs)
    ensures r.Ok? && |LinkYears(linkHrefs)| == 0 ==> forall y :: y in r.value <==> y in AllYears(html, 0)
  {
    var found := LinkYears(linkHrefs);
    var years := if |found| == 0 then AllYears(html, 0) else found;
    if |years| == 0 then Err("No years found in archive page")
    else
      assert years[0] in SortedYears(years);
      Ok(SortedYears(years))
  }

  // ---------------------------------------------------------------------
  // Month pages
  // ---------------------------------------------------------------------

  /** `${baseUrl}/news/archives/${year}/${month}`. */
  function MonthUrl(base: string, year: nat, month: nat): string {
    base + ArchivePath + NatToString(year) + "/" + NatToString(month)
  }

  /** The twelve month pages of each year, years in the given order and
      months 1 to 12 within each. */
  function ArchiveUrls(base: string, years: seq<nat>): (r: seq<string>)
    ensures |r| == 12 * |years|
    ensures forall i, m :: 0 <= i < |years| && 1 <= m <= 12 ==> r[12 * i + m - 1] == MonthUrl(base, years[i], m)
    decreases |years|
  {
    if |years| == 0 then []
    else
      var months := seq(12, k requires 0 <= k < 12 => MonthUrl(base, years[0], k + 1));
      var rest := ArchiveUrls(base, years[1..]);
      assert forall i :: 1 <= i < |years| ==> years[i] == years[1..][i - 1];
      months + rest
  }

  /** A four-digit year renders as four digits. */
  lemma FourDigitYear(y: nat)
    requires 1000 <= y <= 9999
    ensures |NatToString(y)| == 4
  {
    var n := |NatToString(y)|;
    NatToStringLength(y);
    if n < 4 {
      Pow10Monotone(n, 3);
    } else if n > 4 {
      Pow10Monotone(4, n - 1);
    }
  }

  /** The year a month page's path carries reads back with the same
      pattern the crawler uses to find years. */
  lemma MonthPathReadsBack(base: string, year: nat, month: nat)
    requires 1000 <= year <= 9999
    ensures FirstYear(MonthUrl(base, year, month)[|base|..], 0) == Some(year)
  {
    var path := MonthUrl(base, year, month)[|base|..];
    var y := NatToString(year);
    FourDigitYear(year);
    assert path == ArchivePath + y + "/" + NatToString(month);
    assert path[..15] == ArchivePath;
    assert path[15..19] == y;
    DigitsValueOfNatToString(year);
    assert YearAt(path, 0);
  }

  // ---------------------------------------------------------------------
  // Article links and article pages
  // ---------------------------------------------------------------------

  /** An `href` starting with `http` is taken as it is; any other is
      appended to the base URL. */
  function AbsoluteUrl(base: string, href: string): (r: string)
    ensures EndsWith(r, href)
    ensures StartsWith(href, "http") ==> r == href
    ensures !StartsWith(href, "http") ==> r == base + href
  {
    if StartsWith(href, "http") then href
    else
      assert (base + href)[|base + href| - |href|..] == href;
      base + href
  }

  /** With an `http` base every link becomes absolute, and an absolute
      link is left alone, so resolving twice is resolving once. */
  lemma AbsoluteUrlIsAbsolute(base: string, href: string)
    requires StartsWith(base, "http")
    ensures StartsWith(AbsoluteUrl(base, href), "http")
    ensures AbsoluteUrl(base, AbsoluteUrl(base, href)) == AbsoluteUrl(base, href)
  {
    if !StartsWith(href, "http") {
      assert (base + href)[..4] == base[..4];
    }
  }

  /** The article URLs of an archive page: links without a truthy `href`
      are skipped, the others resolved, in page order. */
  function ArticleUrls(base: string, hrefs: seq<Option<string>>): (r: seq<string>)
    ensures |r| <= |hrefs|
    ensures (forall k :: 0 <= k < |hrefs| ==> hrefs[k].Some? && hrefs[k].value != "") ==> |r| == |hrefs|
    ensures forall k :: 0 <= k < |r| ==> ResolvesLink(base, hrefs, r[k])
    decreases |hrefs|
  {
    if |hrefs| == 0 then []
    else
      var rest := ArticleUrls(base, hrefs[1..]);
      ResolvesLinkOfTail(base, hrefs);
      var h := hrefs[0];
      if h.Some? && h.value != "" then
        assert ResolvesLink(base, hrefs, AbsoluteUrl(base, h.value)) by {
          assert hrefs[0].Some? && AbsoluteUrl(base, h.value) == AbsoluteUrl(base, hrefs[0].value);
        }
        [AbsoluteUrl(base, h.value)] + rest
      else rest
  }

  /** `url` is the resolution of some link of the page. */
  predicate ResolvesLink(base: string, hrefs: seq<Option<string>>, url: string) {
    exists j :: 0 <= j < |hrefs| && hrefs[j].Some? && url == AbsoluteUrl(base, hrefs[j].value)
  }

  lemma ResolvesLinkOfTail(base: string, hrefs: seq<Option<string>>)
    requires |hrefs| > 0
    ensures forall url :: ResolvesLink(base, hrefs[1..], url) ==> ResolvesLink(base, hrefs, url)
  {
    forall url | ResolvesLink(base, hrefs[1..], url)
      ensures ResolvesLink(base, hrefs, url)
    {
      var j :| 0 <= j < |hrefs[1..]| && hrefs[1..][j].Some? && url == AbsoluteUrl(base, hrefs[1..][j].value);
      assert hrefs[j + 1] == hrefs[1..][j];
    }
  }

  /** One link gives its resolved URL when its `href` is truthy and nothing
      otherwise. */
  lemma ArticleUrlsOfOneLink(base: string, href: Option<string>)
    ensures ArticleUrls(base, [href]) == if href.Some? && href.value != "" then [AbsoluteUrl(base, href.value)] else []
  {
    assert [href][1..] == [];
  }

  /** The URLs of two runs of links are those of the first run followed by
      those of the second: order is kept and nothing is lost or added. */
  lemma {:induction false} ArticleUrlsAppend(base: string, a: seq<Option<string>>, b: seq<Option<string>>)
    ensures ArticleUrls(base, a + b) == ArticleUrls(base, a) + ArticleUrls(base, b)
    decreases |a|
  {
    if |a| == 0 {
      assert a + b == b;
    } else {
      var ab := a + b;
      assert ab[0] == a[0] && ab[1..] == a[1..] + b;
      ArticleUrlsCons(base, ab);
      ArticleUrlsCons(base, a);
      ArticleUrlsAppend(base, a[1..], b);
      ConcatAssoc(ArticleUrls(base, [a[0]]), ArticleUrls(base, a[1..]), ArticleUrls(base, b));
    }
  }

  /** The URLs of a page are those of its first link followed by those of
      the rest. */
  lemma ArticleUrlsCons(base: string, hrefs: seq<Option<string>>)
    requires |hrefs| > 0
    ensures ArticleUrls(base, hrefs) == ArticleUrls(base, [hrefs[0]]) + ArticleUrls(base, hrefs[1..])
  {
    ArticleUrlsOfOneLink(base, hrefs[0]);
  }

  /** What an article page yields: the title, body and author texts (not
      yet trimmed), and the date `parseDate` read from it, if any. */
  datatype ArticlePage = ArticlePage(titleText: string, contentText: string, date: Option<int>, authorText: Option<string>)

  /** `crawlArticle`: nothing when the page could not be fetched or its
      trimmed title or body is empty; otherwise the article with its body
      cleaned, dated now when no date was read, and with no category. */
  function CrawlArticle(url: string, page: Option<ArticlePage>, now: int): (r: Option<Article>)
    ensures r.Some? <==> page.Some? && Trim(page.value.titleText) != "" && Trim(page.value.contentText) != ""
    ensures r.Some? ==> r.value.url == url && r.value.title == Trim(page.value.titleText)
    ensures r.Some? ==> Normalised(r.value.content) && r.value.content != ""
    ensures r.Some? ==> r.value.publishedDate == page.value.date.GetOr(now) && r.value.category.None?
    ensures r.Some? ==> r.value.content == CleanContent(Trim(page.value.contentText))
    ensures r.Some? ==> r.value.author == if page.value.authorText.Some? then Some(Trim(page.value.authorText.value)) else None
  {
    match page
    case None => None
    case Some(p) =>
      var title := Trim(p.titleText);
      var content := Trim(p.contentText);
      if title == "" || content == "" then None
      else
        CleanedTextIsNotEmpty(content);
        Some(Article(title, url, CleanContent(content), p.date.GetOr(now),
          if p.authorText.Some? then Some(Trim(p.authorText.value)) else None, None))
  }

  /** Crawling a page that shows an article's own title, body, date and
      author gives that article back, at any time: what `crawlArticle`
      produces is already trimmed and cleaned. */
  lemma RecrawlIsStable(url: string, page: ArticlePage, now: int, later: int, a: Article)
    requires CrawlArticle(url, Some(page), now) == Some(a)
    ensures CrawlArticle(url, Some(ArticlePage(a.title, a.content, Some(a.publishedDate), a.author)), later) == Some(a)
  {
    PageTextsAreClean(page);
    CrawlOfCleanPage(url, a.title, a.content, a.publishedDate, a.author, later);
  }

  /** The texts `crawlArticle` takes from a page are already trimmed and
      cleaned. */
  lemma PageTextsAreClean(page: ArticlePage)
    ensures Trim(Trim(page.titleText)) == Trim(page.titleText)
    ensures var c := CleanContent(Trim(page.contentText)); Trim(c) == c && CleanContent(c) == c
    ensures page.authorText.Some? ==> Trim(Trim(page.authorText.value)) == Trim(page.authorText.value)
  {
    TrimIdempotent(page.titleText);
    CleanedIsFixed(page.contentText);
    if page.authorText.Some? {
      TrimIdempotent(page.authorText.value);
    }
  }

  lemma TrimIdempotent(s: string)
    ensures Trim(Trim(s)) == Trim(s)
  {
    var t := Trim(s);
    TrimUnpadded(t);
  }

  lemma CleanedIsFixed(s: string)
    ensures var c := CleanContent(Trim(s)); Trim(c) == c && CleanContent(c) == c
  {
    var c := CleanContent(Trim(s));
    NormalisedIsFixed(c);
  }

  /** A page whose texts are already trimmed and cleaned is crawled into
      exactly those texts. */
  lemma CrawlOfCleanPage(url: string, title: string, content: string, date: int, author: Option<string>, later: int)
    requires title != "" && Trim(title) == title
    requires content != "" && Trim(content) == content && CleanContent(content) == content
    requires author.Some? ==> Trim(author.value) == author.value
    ensures CrawlArticle(url, Some(ArticlePage(title, content, Some(date), author)), later)
              == Some(Article(title, url, content, date, author, None))
  {
  }

  /** Text with a character other than whitespace cleans to non-empty
      text. */
  lemma CleanedTextIsNotEmpty(t: string)
    requires t != "" && !IsSpace(t[0])
    ensures CleanContent(t) != ""
  {
    CleanContentKeepsText(t);
    assert Without(t, IsSpace) == [t[0]] + Without(t[1..], IsSpace);
  }

  // ---------------------------------------------------------------------
  // Archive month pages
  // ---------------------------------------------------------------------

  /** The network as the crawler sees it: the `href`s of the article links
      on an archive month page, and what an article page yields; `None`
      when the fetch fails. */
  datatype Net = Net(
    archiveLinks: string -> Option<seq<Option<string>>>,
    articlePage: string -> Option<ArticlePage>)

  /** The clock: the instant in milliseconds and as the ISO string a save
      records. */
  datatype Clock = Clock(millis: int, iso: string)

  /** The position of the last article with the given URL, or -1. */
  function LastIndexWithUrl(xs: seq<Article>, url: string): (k: int)
    ensures -1 <= k < |xs|
    ensures k >= 0 ==> xs[k].url == url
    ensures forall j :: k < j < |xs| ==> xs[j].url != url
    decreases |xs|
  {
    if |xs| == 0 then -1
    else if xs[|xs| - 1].url == url then |xs| - 1
    else
      var k := LastIndexWithUrl(xs[..|xs| - 1], url);
      assert forall j :: 0 <= j < |xs| - 1 ==> xs[j] == xs[..|xs| - 1][j];
      k
  }

  /** `new Map(articles.map(a => [a.url, a])).get(url)`: with repeated
      URLs the last article wins. */
  function LastWithUrl(xs: seq<Article>, url: string): (r: Option<Article>)
    ensures r.None? <==> forall k :: 0 <= k < |xs| ==> xs[k].url != url
    ensures r.Some? ==> r.value.url == url && r.value == xs[LastIndexWithUrl(xs, url)]
  {
    var k := LastIndexWithUrl(xs, url);
    if k < 0 then None else Some(xs[k])
  }

  /** The article `ResolveArticles` finds for one URL. */
  function ResolveOne(u: string, cached: seq<Article>, net: Net, now: int): (r: Option<Article>)
    ensures r.Some? ==> r.value.url == u
    ensures LastWithUrl(cached, u).Some? ==> r == LastWithUrl(cached, u)
    ensures LastWithUrl(cached, u).None? ==> r == CrawlArticle(u, net.articlePage(u), now)
  {
    if LastWithUrl(cached, u).Some? then LastWithUrl(cached, u) else CrawlArticle(u, net.articlePage(u), now)
  }

  /** The articles behind a page's URLs, in order: the cached one when
      there is one, else a freshly crawled one, else none. */
  function ResolveArticles(urls: seq<string>, cached: seq<Article>, net: Net, now: int): (r: seq<Article>)
    ensures |r| <= |urls|
    decreases |urls|
  {
    if |urls| == 0 then []
    else
      var first := ResolveOne(urls[0], cached, net, now);
      var rest := ResolveArticles(urls[1..], cached, net, now);
      if first.Some? then [first.value] + rest else rest
  }

  /** Every resolved article carries one of the page's URLs. */
  lemma {:induction false} ResolvedUrlsComeFromPage(urls: seq<string>, cached: seq<Article>, net: Net, now: int)
    ensures forall a :: a in ResolveArticles(urls, cached, net, now) ==> a.url in urls
    decreases |urls|
  {
    if |urls| > 0 {
      ResolvedUrlsComeFromPage(urls[1..], cached, net, now);
      assert forall k :: 1 <= k < |urls| ==> urls[k] == urls[1..][k - 1];
    }
  }

  /** When the whole page is cached, its articles come back one per URL,
      in page order. */
  lemma {:induction false} FullyCachedPageInOrder(urls: seq<string>, cached: seq<Article>, net: Net, now: int)
    requires forall k :: 0 <= k < |urls| ==> LastWithUrl(cached, urls[k]).Some?
    ensures Urls(ResolveArticles(urls, cached, net, now)) == urls
    decreases |urls|
  {
    if |urls| > 0 {
      var first := ResolveOne(urls[0], cached, net, now);
      var rest := ResolveArticles(urls[1..], cached, net, now);
      assert forall k :: 1 <= k < |urls| ==> urls[k] == urls[1..][k - 1];
      FullyCachedPageInOrder(urls[1..], cached, net, now);
      UrlsCons(first.value, rest);
      assert urls == [urls[0]] + urls[1..];
    }
  }

  /** A page all of whose articles are cached reads nothing from the
      network. */
  lemma {:induction false} FullyCachedPageIsOffline(urls: seq<string>, cached: seq<Article>, net1: Net, net2: Net, now1: int, now2: int)
    requires forall k :: 0 <= k < |urls| ==> LastWithUrl(cached, urls[k]).Some?
    ensures ResolveArticles(urls, cached, net1, now1) == ResolveArticles(urls, cached, net2, now2)
    decreases |urls|
  {
    if |urls| > 0 {
      assert forall k :: 1 <= k < |urls| ==> urls[k] == urls[1..][k - 1];
      FullyCachedPageIsOffline(urls[1..], cached, net1, net2, now1, now2);
    }
  }

  /** `crawlArchivePage`: a page seen before is served from its stored
      URL list; otherwise it is fetched, its URL list stored, and its
      articles resolved. A failed fetch yields nothing and stores
      nothing. */
  function CrawlArchivePage(c: CacheData, url: string, net: Net, clock: Clock): (r: (seq<Article>, CacheData))
    ensures r.1.articles == c.articles
    ensures IsArchivePageCached(c, url) ==>
              r.1 == c && r.0 == ResolveArticles(CachedArticleUrls(c, url), c.articles, net, clock.millis)
    ensures !IsArchivePageCached(c, url) && net.archiveLinks(url).None? ==> r == ([], c)
    ensures !IsArchivePageCached(c, url) && net.archiveLinks(url).Some? ==>
              CachedArticleUrls(r.1, url) == ArticleUrls(BaseUrl, net.archiveLinks(url).value)
              && r.0 == ResolveArticles(CachedArticleUrls(r.1, url), c.articles, net, clock.millis)
    ensures forall u :: u != url ==>
              CachedArticleUrls(r.1, u) == CachedArticleUrls(c, u) && (IsArchivePageCached(r.1, u) <==> IsArchivePageCached(c, u))
  {
    if IsArchivePageCached(c, url) then
      (ResolveArticles(CachedArticleUrls(c, url), c.articles, net, clock.millis), c)
    else
      match net.archiveLinks(url)
      case None => ([], c)
      case Some(hrefs) =>
        var urls := ArticleUrls(BaseUrl, hrefs);
        var c1 := UpdateArchivePage(c, url, urls, clock.iso);
        (ResolveArticles(urls, c1.articles, net, clock.millis), c1)
  }

  // ---------------------------------------------------------------------
  // Walking the month pages
  // ---------------------------------------------------------------------

  /** The first `n` elements, or all of them when there are fewer. */
  function Take<T>(s: seq<T>, n: nat): (r: seq<T>)
    ensures |r| <= n && |r| <= |s| && r == s[..|r|]
    ensures |s| <= n ==> r == s
    ensures |s| > n ==> |r| == n
  {
    if |s| <= n then s else s[..n]
  }

  /** Every month page crawled in turn, each seeing the cache the earlier
      ones left, with nothing cut off: the articles found and the final
      cache. */
  function CollectPages(c: CacheData, urls: seq<string>, net: Net, clock: Clock): (r: (seq<Article>, CacheData))
    ensures r.1.articles == c.articles
    decreases |urls|
  {
    if |urls| == 0 then ([], c)
    else
      var (found, c1) := CrawlArchivePage(c, urls[0], net, clock);
      var (more, c2) := CollectPages(c1, urls[1..], net, clock);
      (found + more, c2)
  }

  /** The loop of `crawlArchives` and `crawlAndUpdateCache`: each page's
      articles are appended to `acc`, and as soon as the list holds `max`
      articles it is cut to `max` and the remaining pages are skipped. */
  function CrawlPages(c: CacheData, urls: seq<string>, net: Net, clock: Clock, max: nat, acc: seq<Article>): (r: (seq<Article>, CacheData))
    requires |acc| <= max
    ensures |r.0| <= max
    ensures |acc| <= |r.0| && r.0[..|acc|] == acc
    ensures r.1.articles == c.articles
    ensures forall u :: u !in urls ==>
              CachedArticleUrls(r.1, u) == CachedArticleUrls(c, u) && (IsArchivePageCached(r.1, u) <==> IsArchivePageCached(c, u))
    decreases |urls|
  {
    if |urls| == 0 then (acc, c)
    else
      var (found, c1) := CrawlArchivePage(c, urls[0], net, clock);
      var acc1 := acc + found;
      assert forall u :: u !in urls ==> u !in urls[1..] && u != urls[0];
      if |acc1| >= max then
        PrefixOfPrefix(acc1, |acc|, max);
        (acc1[..max], c1)
      else
        var r := CrawlPages(c1, urls[1..], net, clock, max, acc1);
        PrefixOfPrefix(r.0, |acc|, |acc1|);
        PrefixOfPrefix(acc1, |acc|, |acc1|);
        r
  }

  /** Stopping early loses nothing but what the cut would drop: the
      articles are those of crawling every page, cut to `max`. */
  lemma {:induction false} EarlyStopIsTruncation(c: CacheData, urls: seq<string>, net: Net, clock: Clock, max: nat, acc: seq<Article>)
    requires |acc| <= max
    ensures CrawlPages(c, urls, net, clock, max, acc).0 == Take(acc + CollectPages(c, urls, net, clock).0, max)
    decreases |urls|
  {
    if |urls| > 0 {
      var page := CrawlArchivePage(c, urls[0], net, clock);
      var more := CollectPages(page.1, urls[1..], net, clock).0;
      var prefix := acc + page.0;
      PageStep(c, urls, net, clock, max, acc);
      var all := CollectPages(c, urls, net, clock).0;
      assert all == page.0 + more;
      AppendAssociative(acc, page.0, more);
      if |prefix| >= max {
        assert (prefix + more)[..max] == prefix[..max];
        assert Take(prefix + more, max) == prefix[..max];
      } else {
        EarlyStopIsTruncation(page.1, urls[1..], net, clock, max, prefix);
      }
    } else {
      assert CollectPages(c, urls, net, clock).0 == [];
      assert acc + [] == acc;
    }
  }

  /** A prefix of a prefix is a prefix. */
  lemma PrefixOfPrefix<T>(s: seq<T>, i: nat, j: nat)
    requires i <= j <= |s|
    ensures s[..j][..i] == s[..i]
  {
  }

  lemma AppendAssociative<T>(a: seq<T>, b: seq<T>, c: seq<T>)
    ensures a + (b + c) == (a + b) + c
  {
  }

  /** One step of both walks over the month pages. */
  lemma PageStep(c: CacheData, urls: seq<string>, net: Net, clock: Clock, max: nat, acc: seq<Article>)
    requires |urls| > 0 && |acc| <= max
    ensures var page := CrawlArchivePage(c, urls[0], net, clock);
            && CollectPages(c, urls, net, clock).0 == page.0 + CollectPages(page.1, urls[1..], net, clock).0
            && CrawlPages(c, urls, net, clock, max, acc).0 ==
                 if |acc + page.0| >= max then (acc + page.0)[..max]
                 else CrawlPages(page.1, urls[1..], net, clock, max, acc + page.0).0
  {
  }

  // ---------------------------------------------------------------------
  // `crawlArchives`
  // ---------------------------------------------------------------------

  /** `crawlArchives`: a fresh cache with articles is served as it is;
      otherwise the archive page is fetched (its failure is the error),
      its years found (none is an error), every month page of those years
      crawled until `MaxArticles` articles are found, and the article list
      replaced with the result. */
  function CrawlArchives(c: CacheData, stale: bool, archivePage: Result<string, string>,
                         linkHrefs: seq<Option<string>>, net: Net, clock: Clock): (r: Result<(seq<Article>, CacheData), string>)
    ensures !stale && |c.articles| > 0 ==> r == Ok((c.articles, c))
    ensures (stale || |c.articles| == 0) && archivePage.Err? ==> r == Err(archivePage.error)
    ensures (stale || |c.articles| == 0) && archivePage.Ok? ==>
              (r.Err? <==> ArchiveYears(linkHrefs, archivePage.value).Err?)
              && (r.Err? ==> r.error == "No years found in archive page")
    ensures (stale || |c.articles| == 0) && r.Ok? ==>
              var years := ArchiveYears(linkHrefs, archivePage.value).value;
              && r.value.0 == Take(CollectPages(c, ArchiveUrls(BaseUrl, years), net, clock).0, MaxArticles)
              && r.value.1.articles == r.value.0 && r.value.1.lastUpdated == clock.iso
  {
    if !stale && |c.articles| > 0 then Ok((c.articles, c))
    else
      match archivePage
      case Err(e) => Err(e)
      case Ok(html) =>
        match ArchiveYears(linkHrefs, html)
        case Err(e) => Err(e)
        case Ok(years) =>
          var urls := ArchiveUrls(BaseUrl, years);
          var (articles, c1) := CrawlPages(c, urls, net, clock, MaxArticles, []);
          EarlyStopIsTruncation(c, urls, net, clock, MaxArticles, []);
          assert [] + CollectPages(c, urls, net, clock).0 == CollectPages(c, urls, net, clock).0;
          Ok((articles, UpdateArticles(c1, articles, clock.iso)))
  }

  // ---------------------------------------------------------------------
  // `crawlAndUpdateCache`
  // ---------------------------------------------------------------------

  /** The years `from` to `to`, both included. */
  function YearRange(from: nat, to: int): (r: seq<nat>)
    ensures |r| == (if to < from then 0 else to - from + 1)
    ensures forall i :: 0 <= i < |r| ==> r[i] == from + i
    decreases if to < from then 0 else to - from + 1
  {
    if to < from then [] else [from] + YearRange(from + 1, to)
  }

  /** The first year of the fallback range. */
  const FallbackFirstYear: nat := 2020

  /** The month pages whose fetch succeeds and lists at least one article
      link, in order. */
  function MonthsWithArticles(urls: seq<string>, net: Net): (r: seq<string>)
    ensures |r| <= |urls|
    ensures forall u :: u in r <==> u in urls && net.archiveLinks(u).Some? && |net.archiveLinks(u).value| > 0
    decreases |urls|
  {
    if |urls| == 0 then []
    else
      var rest := MonthsWithArticles(urls[1..], net);
      assert forall u :: u in urls <==> u == urls[0] || u in urls[1..];
      var links := net.archiveLinks(urls[0]);
      if links.Some? && |links.value| > 0 then [urls[0]] + rest else rest
  }

  /** Filtering two runs of month pages is filtering each, in order, so
      the crawl later visits the kept months in the order they were
      listed. */
  lemma {:induction false} MonthsWithArticlesAppend(a: seq<string>, b: seq<string>, net: Net)
    ensures MonthsWithArticles(a + b, net) == MonthsWithArticles(a, net) + MonthsWithArticles(b, net)
    decreases |a|
  {
    if |a| == 0 {
      assert a + b == b;
    } else {
      assert (a + b)[0] == a[0];
      assert (a + b)[1..] == a[1..] + b;
      MonthsWithArticlesAppend(a[1..], b, net);
    }
  }

  /** One month page is kept exactly when it loads and lists an article
      link. */
  lemma MonthsWithArticlesOfOne(u: string, net: Net)
    ensures MonthsWithArticles([u], net)
            == if net.archiveLinks(u).Some? && |net.archiveLinks(u).value| > 0 then [u] else []
  {
    assert [u][1..] == [];
  }

  /** The crawled articles whose URL the existing list does not have, in
      crawl order. */
  function NewArticles(existing: seq<Article>, crawled: seq<Article>): (r: seq<Article>)
    ensures |r| <= |crawled|
    ensures forall a :: a in r <==> a in crawled && a.url !in Urls(existing)
    ensures r == [] <==> forall a :: a in crawled ==> a.url in Urls(existing)
    decreases |crawled|
  {
    if |crawled| == 0 then []
    else
      var rest := NewArticles(existing, crawled[1..]);
      assert forall a :: a in crawled <==> a == crawled[0] || a in crawled[1..];
      if crawled[0].url in Urls(existing) then rest else [crawled[0]] + rest
  }

  /** Filtering two runs of crawled articles is filtering each, in order. */
  lemma {:induction false} NewArticlesAppend(existing: seq<Article>, a: seq<Article>, b: seq<Article>)
    ensures NewArticles(existing, a + b) == NewArticles(existing, a) + NewArticles(existing, b)
    decreases |a|
  {
    if |a| == 0 {
      assert a + b == b;
    } else {
      assert (a + b)[0] == a[0];
      assert (a + b)[1..] == a[1..] + b;
      NewArticlesAppend(existing, a[1..], b);
    }
  }

  /** One crawled article is kept exactly when its URL is not cached. */
  lemma NewArticlesOfOne(existing: seq<Article>, x: Article)
    ensures NewArticles(existing, [x]) == if x.url in Urls(existing) then [] else [x]
  {
    assert [x][1..] == [];
  }

  /** The list `crawlAndUpdateCache` saves: the existing articles followed
      by the new ones. */
  function MergeNew(existing: seq<Article>, crawled: seq<Article>): (r: seq<Article>)
    ensures |existing| <= |r| && r[..|existing|] == existing
    ensures forall a :: a in crawled ==> a.url in Urls(r)
    ensures forall a :: a in r ==> a in existing || a in crawled
  {
    var added := NewArticles(existing, crawled);
    var r := existing + added;
    assert forall a :: a in crawled ==> a.url in Urls(r) by {
      forall a | a in crawled
        ensures a.url in Urls(r)
      {
        if a.url in Urls(existing) {
          var k :| 0 <= k < |existing| && Urls(existing)[k] == a.url;
          assert Urls(r)[k] == a.url;
        } else {
          var k :| 0 <= k < |added| && added[k] == a;
          assert Urls(r)[|existing| + k] == a.url;
        }
      }
    }
    r
  }

  /** No two articles of the list share a URL. */
  predicate DistinctUrls(xs: seq<Article>) {
    forall i, j :: 0 <= i < j < |xs| ==> xs[i].url != xs[j].url
  }

  /** Merging what was just merged adds nothing. */
  lemma MergeIdempotent(existing: seq<Article>, crawled: seq<Article>)
    ensures NewArticles(MergeNew(existing, crawled), crawled) == []
    ensures MergeNew(MergeNew(existing, crawled), crawled) == MergeNew(existing, crawled)
  {
    var m := MergeNew(existing, crawled);
    var n := NewArticles(m, crawled);
    assert m + [] == m;
  }

  /** Filtering keeps the URLs of a crawl distinct. */
  lemma {:induction false} NewArticlesDistinct(existing: seq<Article>, crawled: seq<Article>)
    requires DistinctUrls(crawled)
    ensures DistinctUrls(NewArticles(existing, crawled))
    decreases |crawled|
  {
    if |crawled| > 0 {
      var tail := crawled[1..];
      DistinctCons(crawled);
      NewArticlesDistinct(existing, tail);
      var rest := NewArticles(existing, tail);
      assert NewArticles(existing, crawled) == rest || NewArticles(existing, crawled) == [crawled[0]] + rest;
      assert forall a :: a in rest ==> a in tail;
      DistinctCons([crawled[0]] + rest);
      assert ([crawled[0]] + rest)[1..] == rest;
    }
  }

  /** A list has distinct URLs exactly when its tail does and the head's
      URL appears in no element of the tail. */
  lemma DistinctCons(xs: seq<Article>)
    requires |xs| > 0
    ensures DistinctUrls(xs) <==> DistinctUrls(xs[1..]) && forall a :: a in xs[1..] ==> a.url != xs[0].url
  {
    var tail := xs[1..];
    if DistinctUrls(xs) {
      forall i, j | 0 <= i < j < |tail| ensures tail[i].url != tail[j].url {
        assert tail[i] == xs[i + 1] && tail[j] == xs[j + 1];
      }
      forall a | a in tail ensures a.url != xs[0].url {
        var k :| 0 <= k < |tail| && tail[k] == a;
        assert xs[k + 1] == a;
      }
    }
    if DistinctUrls(tail) && forall a :: a in tail ==> a.url != xs[0].url {
      forall i, j | 0 <= i < j < |xs| ensures xs[i].url != xs[j].url {
        assert xs[j] == tail[j - 1];
        if i > 0 { assert xs[i] == tail[i - 1]; }
      }
    }
  }

  /** Two lists with distinct URLs and no URL in common concatenate to a
      list with distinct URLs. */
  lemma DistinctConcat(a: seq<Article>, b: seq<Article>)
    requires DistinctUrls(a) && DistinctUrls(b)
    requires forall x :: x in b ==> x.url !in Urls(a)
    ensures DistinctUrls(a + b)
  {
    var m := a + b;
    forall i, j | 0 <= i < j < |m| ensures m[i].url != m[j].url {
      if j >= |a| {
        assert m[j] == b[j - |a|];
        if i < |a| {
          assert Urls(a)[i] == m[i].url;
        } else {
          assert m[i] == b[i - |a|];
        }
      }
    }
  }

  /** A merge keeps the URLs distinct when the cache's and the crawl's
      were distinct to begin with. */
  lemma MergeKeepsUrlsDistinct(existing: seq<Article>, crawled: seq<Article>)
    requires DistinctUrls(existing) && DistinctUrls(crawled)
    ensures DistinctUrls(MergeNew(existing, crawled))
  {
    NewArticlesDistinct(existing, crawled);
    DistinctConcat(existing, NewArticles(existing, crawled));
  }

  /** `crawlAndUpdateCache`: a failed archive fetch changes nothing. The
      years of the year links, else every year from 2020 to the current
      one, are scanned for month pages with article links; those are
      crawled until `MaxArticles` articles are found, and the crawled
      articles whose URL the cache lacks are appended to it. */
  function CrawlAndUpdateCache(c: CacheData, yearLinks: Option<seq<Option<string>>>, currentYear: int,
                               net: Net, clock: Clock): (r: CacheData)
    ensures yearLinks.None? ==> r == c
    ensures |c.articles| <= |r.articles| && r.articles[..|c.articles|] == c.articles
    ensures yearLinks.Some? ==>
              var found := LinkYears(yearLinks.value);
              var years := SortedYears(if |found| == 0 then YearRange(FallbackFirstYear, currentYear) else found);
              var crawled := CrawlPages(c, MonthsWithArticles(ArchiveUrls(BaseUrl, years), net), net, clock, MaxArticles, []).0;
              && |crawled| <= MaxArticles
              && r.articles == MergeNew(c.articles, crawled)
              && (|NewArticles(c.articles, crawled)| > 0 ==> r.lastUpdated == clock.iso)
  {
    match yearLinks
    case None => c
    case Some(hrefs) =>
      var found := LinkYears(hrefs);
      var years := SortedYears(if |found| == 0 then YearRange(FallbackFirstYear, currentYear) else found);
      var urls := MonthsWithArticles(ArchiveUrls(BaseUrl, years), net);
      var (articles, c1) := CrawlPages(c, urls, net, clock, MaxArticles, []);
      var added := NewArticles(c1.articles, articles);
      if |articles| > 0 && |added| > 0 then UpdateArticles(c1, MergeNew(c1.articles, articles), clock.iso)
      else c1
  }
}
