/** The feed generator's cache manager, in memory: the article list, the
    article URLs found on each archive month page, and the time of the
    last save. Reading and writing the cache file is outside the model;
    each save stamps `lastUpdated` with the clock, handed in as `now`. */
module NewsCache {
  import opened NewsTypes

  datatype CacheData = CacheData(articles: seq<Article>, lastUpdated: string, archivePages: map<string, seq<string>>)

  datatype CacheStats = CacheStats(articles: nat, archivePages: nat, lastUpdated: string)

  /** The constructor's empty cache. */
  function Empty(now: string): (c: CacheData)
    ensures c.articles == [] && c.archivePages == map[]
  {
    CacheData([], now, map[])
  }

  /** `updateArticles`: the list is replaced wholesale, then saved. Every
      archive page reads back as before, and the statistics count the new
      list with the save time. */
  function UpdateArticles(c: CacheData, articles: seq<Article>, now: string): (r: CacheData)
    ensures forall url :: IsArchivePageCached(r, url) == IsArchivePageCached(c, url)
    ensures forall url :: CachedArticleUrls(r, url) == CachedArticleUrls(c, url)
    ensures Stats(r) == CacheStats(|articles|, Stats(c).archivePages, now)
  {
    c.(articles := articles, lastUpdated := now)
  }

  /** `updateArchivePage`: the page's entry is set, replacing any earlier
      one, then saved. */
  function UpdateArchivePage(c: CacheData, url: string, articleUrls: seq<string>, now: string): (r: CacheData)
    ensures r.articles == c.articles && r.lastUpdated == now
    ensures r.archivePages.Keys == c.archivePages.Keys + {url}
  {
    c.(archivePages := c.archivePages[url := articleUrls], lastUpdated := now)
  }

  /** `isArchivePageCached`. */
  predicate IsArchivePageCached(c: CacheData, url: string) {
    url in c.archivePages
  }

  /** `getCachedArticleUrls`: the stored list (an array is truthy even when
      empty), or the empty list for a page never stored. */
  function CachedArticleUrls(c: CacheData, url: string): (r: seq<string>)
    ensures !IsArchivePageCached(c, url) ==> r == []
    ensures IsArchivePageCached(c, url) ==> r == c.archivePages[url]
  {
    if url in c.archivePages then c.archivePages[url] else []
  }

  /** `clearCache`: both collections emptied, then saved. */
  function ClearCache(c: CacheData, now: string): (r: CacheData)
    ensures r.articles == [] && r.archivePages == map[] && r.lastUpdated == now
  {
    Empty(now)
  }

  /** `getCacheStats`: the article count is zero exactly when the list is
      empty, and the page count is zero exactly when no page is cached. */
  function Stats(c: CacheData): (r: CacheStats)
    ensures r.articles == 0 <==> c.articles == []
    ensures r.archivePages == 0 <==> forall url :: !IsArchivePageCached(c, url)
    ensures r.lastUpdated == c.lastUpdated
  {
    assert |c.archivePages.Keys| > 0 ==> exists url :: IsArchivePageCached(c, url) by {
      if |c.archivePages.Keys| > 0 {
        var u :| u in c.archivePages.Keys;
        assert IsArchivePageCached(c, u);
      }
    }
    CacheStats(|c.articles|, |c.archivePages.Keys|, c.lastUpdated)
  }

  /** A stored page reads back as stored, whatever was there before, and
      every other page reads back as before. */
  lemma ArchivePageReadsBack(c: CacheData, url: string, other: string, articleUrls: seq<string>, now: string)
    requires other != url
    ensures var r := UpdateArchivePage(c, url, articleUrls, now);
            && IsArchivePageCached(r, url)
            && CachedArticleUrls(r, url) == articleUrls
            && IsArchivePageCached(r, other) == IsArchivePageCached(c, other)
            && CachedArticleUrls(r, other) == CachedArticleUrls(c, other)
  {
  }

  /** The two collections are saved independently: replacing the
      articles leaves every page's entry as it was, and storing a page
      leaves the articles as they were. */
  lemma CollectionsAreIndependent(c: CacheData, articles: seq<Article>, url: string, other: string,
                                  articleUrls: seq<string>, now: string)
    ensures CachedArticleUrls(UpdateArticles(c, articles, now), other) == CachedArticleUrls(c, other)
    ensures IsArchivePageCached(UpdateArticles(c, articles, now), other) == IsArchivePageCached(c, other)
    ensures UpdateArchivePage(UpdateArticles(c, articles, now), url, articleUrls, now).articles == articles
  {
  }

  /** Storing a page adds one to the page count exactly when the page was
      not stored yet. */
  lemma UpdateArchivePageCount(c: CacheData, url: string, articleUrls: seq<string>, now: string)
    ensures Stats(UpdateArchivePage(c, url, articleUrls, now)).archivePages
              == Stats(c).archivePages + (if IsArchivePageCached(c, url) then 0 else 1)
  {
    var ks := c.archivePages.Keys;
    if url in ks {
      assert ks + {url} == ks;
    } else {
      assert |ks + {url}| == |ks| + |{url}|;
    }
  }

  /** After clearing, the statistics count nothing and no page is stored. */
  lemma ClearedCacheIsEmpty(c: CacheData, url: string, now: string)
    ensures Stats(ClearCache(c, now)) == CacheStats(0, 0, now)
    ensures !IsArchivePageCached(ClearCache(c, now), url) && CachedArticleUrls(ClearCache(c, now), url) == []
  {
    assert ClearCache(c, now).archivePages.Keys == {};
  }
}
