/** The feed generator: the article list sorted newest first and mapped to
    feed items, and the word-boundary truncation helper. Rendering the
    items as XML is outside the model. */
module RssFeed {
  import opened Wrappers
  import opened Text
  import opened NewsTypes

  // ---------------------------------------------------------------------
  // Ordering
  // ---------------------------------------------------------------------

  /** Newest first: dates never increase along the list. */
  predicate NewestFirst(xs: seq<Article>) {
    forall i, j :: 0 <= i < j < |xs| ==> xs[i].publishedDate >= xs[j].publishedDate
  }

  /** The articles of one date, in list order. */
  function WithDate(xs: seq<Article>, d: int): (r: seq<Article>)
    ensures |r| <= |xs|
    decreases |xs|
  {
    if |xs| == 0 then []
    else if xs[0].publishedDate == d then [xs[0]] + WithDate(xs[1..], d)
    else WithDate(xs[1..], d)
  }

  /** Places `x`, which came before every element of `ys`, in front of the
      first element that is not newer than it. */
  function Insert(x: Article, ys: seq<Article>): (r: seq<Article>)
    ensures |r| == |ys| + 1
    ensures multiset(r) == multiset(ys) + multiset{x}
    decreases |ys|
  {
    if |ys| == 0 || ys[0].publishedDate <= x.publishedDate then
      [x] + ys
    else
      assert ys == [ys[0]] + ys[1..];
      [ys[0]] + Insert(x, ys[1..])
  }

  /** No element of `xs` is newer than `d`. */
  predicate NotNewerThan(xs: seq<Article>, d: int) {
    forall k :: 0 <= k < |xs| ==> xs[k].publishedDate <= d
  }

  /** Inserting into a newest-first list keeps it newest first, and adds
      nothing newer than what was there and `x`. */
  lemma {:induction false} InsertKeepsOrder(x: Article, ys: seq<Article>, d: int)
    requires NewestFirst(ys)
    ensures NewestFirst(Insert(x, ys))
    ensures NotNewerThan(ys, d) && x.publishedDate <= d ==> NotNewerThan(Insert(x, ys), d)
    decreases |ys|
  {
    if |ys| == 0 || ys[0].publishedDate <= x.publishedDate {
    } else {
      var rest := Insert(x, ys[1..]);
      InsertKeepsOrder(x, ys[1..], d);
      InsertKeepsOrder(x, ys[1..], ys[0].publishedDate);
      assert NotNewerThan(ys[1..], ys[0].publishedDate);
      assert NotNewerThan(rest, ys[0].publishedDate);
      assert NotNewerThan(ys, d) ==> NotNewerThan(ys[1..], d);
    }
  }

  /** `articles.sort((a, b) => b.publishedDate - a.publishedDate)`: a stable
      sort, newest first. */
  function SortNewestFirst(xs: seq<Article>): (r: seq<Article>)
    ensures |r| == |xs|
    ensures multiset(r) == multiset(xs)
    ensures NewestFirst(r)
    decreases |xs|
  {
    if |xs| == 0 then []
    else
      assert xs == [xs[0]] + xs[1..];
      var rest := SortNewestFirst(xs[1..]);
      InsertKeepsOrder(xs[0], rest, xs[0].publishedDate);
      Insert(xs[0], rest)
  }

  /** Inserting keeps, among the articles of any one date, `x` ahead of
      the ones already there. */
  lemma {:induction false} InsertWithDate(x: Article, ys: seq<Article>, d: int)
    ensures WithDate(Insert(x, ys), d) == if x.publishedDate == d then [x] + WithDate(ys, d) else WithDate(ys, d)
    decreases |ys|
  {
    if |ys| == 0 || ys[0].publishedDate <= x.publishedDate {
      assert ([x] + ys)[1..] == ys;
    } else {
      InsertWithDate(x, ys[1..], d);
      assert ([ys[0]] + Insert(x, ys[1..]))[1..] == Insert(x, ys[1..]);
    }
  }

  /** The sort is stable: articles published at the same instant keep
      their relative order. */
  lemma {:induction false} SortIsStable(xs: seq<Article>, d: int)
    ensures WithDate(SortNewestFirst(xs), d) == WithDate(xs, d)
    decreases |xs|
  {
    if |xs| > 0 {
      SortIsStable(xs[1..], d);
      InsertWithDate(xs[0], SortNewestFirst(xs[1..]), d);
    }
  }

  // ---------------------------------------------------------------------
  // Items
  // ---------------------------------------------------------------------

  /** What `feed.item` is given for one article. */
  datatype FeedItem = FeedItem(
    title: string,
    description: string,
    url: string,
    guid: string,
    categories: Option<seq<string>>,
    author: Option<string>,
    date: int)

  /** The item for one article: the url doubles as guid, the content is
      the description, and a category is listed only when truthy. */
  function ItemOf(a: Article): (it: FeedItem)
    ensures it.url == a.url && it.guid == a.url && it.description == a.content
    ensures it.title == a.title && it.author == a.author && it.date == a.publishedDate
    ensures it.categories.Some? <==> a.category.Some? && a.category.value != ""
    ensures it.categories.Some? ==> it.categories.value == [a.category.value]
  {
    FeedItem(a.title, a.content, a.url, a.url,
      if a.category.Some? && a.category.value != "" then Some([a.category.value]) else None,
      a.author, a.publishedDate)
  }

  function Items(xs: seq<Article>): (r: seq<FeedItem>)
    ensures |r| == |xs|
    ensures forall i :: 0 <= i < |xs| ==> r[i] == ItemOf(xs[i])
  {
    seq(|xs|, i requires 0 <= i < |xs| => ItemOf(xs[i]))
  }

  /** `generateRSS`: the items in feed order, and the caller's array, which
      the in-place sort leaves sorted. */
  function GenerateFeed(articles: seq<Article>): (r: (seq<FeedItem>, seq<Article>))
    ensures |r.0| == |articles| && |r.1| == |articles|
    ensures multiset(r.1) == multiset(articles) && NewestFirst(r.1)
    ensures forall i :: 0 <= i < |r.0| ==> r.0[i] == ItemOf(r.1[i])
  {
    var sorted := SortNewestFirst(articles);
    (Items(sorted), sorted)
  }

  /** Each article gives exactly one item, each item comes from one of the
      articles, and the items run newest first. */
  lemma FeedIsTheArticles(articles: seq<Article>)
    ensures var (items, sorted) := GenerateFeed(articles);
            && (forall a :: a in articles ==> ItemOf(a) in items)
            && (forall i :: 0 <= i < |items| ==> exists a :: a in articles && items[i] == ItemOf(a))
            && (forall i, j :: 0 <= i < j < |items| ==> items[i].date >= items[j].date)
  {
    var (items, sorted) := GenerateFeed(articles);
    forall a | a in articles
      ensures ItemOf(a) in items
    {
      assert a in multiset(sorted);
      var k :| 0 <= k < |sorted| && sorted[k] == a;
      assert items[k] == ItemOf(a);
    }
    forall i | 0 <= i < |items|
      ensures exists a :: a in articles && items[i] == ItemOf(a)
    {
      assert sorted[i] in multiset(articles);
    }
  }

  // ---------------------------------------------------------------------
  // Truncation
  // ---------------------------------------------------------------------

  const Ellipsis: string := "..."

  /** A space in the last fifth of the first `maxLength` characters, where
      `lastSpace > maxLength * 0.8` looks for one. */
  predicate SpaceNearEnd(content: string, maxLength: int)
    requires 0 <= maxLength <= |content|
  {
    exists p :: 0 <= p < maxLength && 5 * p > 4 * maxLength && content[p] == ' '
  }

  /** `truncateContent`: content that fits is kept; longer content is cut
      at the last space in the window when that space lies past 80% of it,
      else at `maxLength`, and gets an ellipsis. */
  function TruncateContent(content: string, maxLength: int): (r: string)
    ensures |content| <= maxLength ==> r == content
    ensures |content| > maxLength ==> EndsWith(r, Ellipsis) && StartsWith(content, r[..|r| - 3])
    ensures maxLength < 0 ==> r == Ellipsis
    ensures 0 <= maxLength < |content| && !SpaceNearEnd(content, maxLength) ==>
              r == content[..maxLength] + Ellipsis
    ensures 0 <= maxLength < |content| && SpaceNearEnd(content, maxLength) ==>
              var k := |r| - 3;
              && 5 * k > 4 * maxLength && k < maxLength && content[k] == ' '
              && r == content[..k] + Ellipsis
              && forall p :: k < p < maxLength ==> content[p] != ' '
  {
    if |content| <= maxLength then content
    else if maxLength < 0 then
      // `substring(0, maxLength)` is empty, so only the ellipsis is left.
      Ellipsis
    else
      var r := CutWindow(content, maxLength);
      assert r[..|r| - 3] == content[..|r| - 3];
      r
  }

  /** The cut of content longer than a non-negative `maxLength`. */
  function CutWindow(content: string, maxLength: nat): (r: string)
    requires maxLength < |content|
    ensures 3 <= |r| <= maxLength + 3 && r == content[..|r| - 3] + Ellipsis
    ensures !SpaceNearEnd(content, maxLength) ==> r == content[..maxLength] + Ellipsis
    ensures SpaceNearEnd(content, maxLength) ==>
              var k := |r| - 3;
              && 5 * k > 4 * maxLength && k < maxLength && content[k] == ' '
              && forall p :: k < p < maxLength ==> content[p] != ' '
  {
    var truncated := content[..maxLength];
    var lastSpace := LastIndexOf(truncated, ' ');
    if 5 * lastSpace > 4 * maxLength then
      assert truncated[..lastSpace] == content[..lastSpace];
      truncated[..lastSpace] + Ellipsis
    else
      NoLateSpace(content, maxLength, truncated);
      truncated + Ellipsis
  }

  /** When the last space of the window is not past 80% of it, there is
      no space in its last fifth at all. */
  lemma NoLateSpace(content: string, maxLength: int, truncated: string)
    requires maxLength < |content|
    requires truncated == if maxLength < 0 then "" else content[..maxLength]
    requires 5 * LastIndexOf(truncated, ' ') <= 4 * maxLength
    ensures maxLength >= 0 ==> !SpaceNearEnd(content, maxLength)
  {
    if maxLength >= 0 {
      assert forall p :: 0 <= p < maxLength ==> truncated[p] == content[p];
    }
  }

  /** The result is never more than three characters longer than the
      window, and a cut never removes more than a fifth of it. */
  lemma TruncateContentLength(content: string, maxLength: int)
    requires 0 <= maxLength < |content|
    ensures |TruncateContent(content, maxLength)| <= maxLength + 3
    ensures 5 * (|TruncateContent(content, maxLength)| - 3) >= 4 * maxLength
  {
  }
}
