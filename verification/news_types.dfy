/** The news article the crawler collects, the cache stores and the feed
    publishes. */
module NewsTypes {
  import opened Wrappers

  /** `publishedDate` is the instant's `getTime()`, in milliseconds. */
  datatype Article = Article(
    title: string,
    url: string,
    content: string,
    publishedDate: int,
    author: Option<string>,
    category: Option<string>)

  /** The article URLs, in order. */
  function Urls(xs: seq<Article>): (r: seq<string>)
    ensures |r| == |xs|
    ensures forall i :: 0 <= i < |xs| ==> r[i] == xs[i].url
  {
    seq(|xs|, i requires 0 <= i < |xs| => xs[i].url)
  }

  /** The URLs of a list with one more article in front. */
  lemma UrlsCons(a: Article, rest: seq<Article>)
    ensures Urls([a] + rest) == [a.url] + Urls(rest)
  {
  }
}
