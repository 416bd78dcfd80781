/** The plugin proxy: an in-memory cache keyed by `::`-joined strings, the
    latest-release manifest with its conditional-request and stale-serving
    rules, the manifest entry lookup, and the search for an asset by
    digest. Every GitHub request is an outcome handed in as a parameter,
    and so is the clock. */
module Plugins {
  import opened Wrappers
  import opened Json

  // ---------------------------------------------------------------------
  // Cache keys
  // ---------------------------------------------------------------------

  const Separator: string := "::"

  /** `key(...parts)`: the parts joined with `::`. */
  function Key(parts: seq<string>): string {
    if |parts| == 0 then ""
    else if |parts| == 1 then parts[0]
    else parts[0] + Separator + Key(parts[1..])
  }

  /** Splits at every `::`, scanning left to right. */
  function SplitKey(s: string): (r: seq<string>)
    ensures |r| > 0
    decreases |s|
  {
    if |s| < 2 then [s]
    else if s[..2] == Separator then [""] + SplitKey(s[2..])
    else
      var rest := SplitKey(s[1..]);
      [[s[0]] + rest[0]] + rest[1..]
  }

  /** A part the separator cannot be confused with: no `::` inside and no
      trailing `:` (a GitHub digest such as `sha256:…` qualifies). */
  predicate Separable(p: string) {
    (forall j :: 0 <= j < |p| - 1 ==> !(p[j] == ':' && p[j + 1] == ':'))
    && (|p| > 0 ==> p[|p| - 1] != ':')
  }

  lemma {:induction false} SplitPart(p: string)
    requires Separable(p)
    ensures SplitKey(p) == [p]
    decreases |p|
  {
    if |p| >= 2 {
      assert p[..2] != Separator by {
        assert !(p[0] == ':' && p[1] == ':');
      }
      SplitPart(p[1..]);
      assert [p[0]] + p[1..] == p;
    }
  }

  lemma {:induction false} SplitPartThenRest(p: string, rest: string)
    requires Separable(p)
    ensures SplitKey(p + Separator + rest) == [p] + SplitKey(rest)
    decreases |p|
  {
    var s := p + Separator + rest;
    if |p| == 0 {
      assert s[..2] == Separator;
      assert s[2..] == rest;
    } else {
      assert s[..2] != Separator by {
        if |p| == 1 {
          assert s[0] == p[0] != ':';
        } else {
          assert !(p[0] == ':' && p[1] == ':');
          assert s[0] == p[0] && s[1] == p[1];
        }
      }
      SplitPartThenRest(p[1..], rest);
      assert s[1..] == p[1..] + Separator + rest;
      assert [s[0]] + p[1..] == p;
    }
  }

  /** Keys built from separable parts split back into those parts, so two
      different part lists never share a cache slot. */
  lemma {:induction false} KeySplitRoundTrip(parts: seq<string>)
    requires |parts| > 0
    requires forall i :: 0 <= i < |parts| ==> Separable(parts[i])
    ensures SplitKey(Key(parts)) == parts
    decreases |parts|
  {
    if |parts| == 1 {
      SplitPart(parts[0]);
    } else {
      KeySplitRoundTrip(parts[1..]);
      SplitPartThenRest(parts[0], Key(parts[1..]));
      assert parts == [parts[0]] + parts[1..];
    }
  }

  function ManifestKey(): string {
    Key(["manifest"])
  }

  function AssetKey(owner: string, repo: string, sha: string): string {
    Key(["asset", owner, repo, sha])
  }

  /** The manifest never shares a slot with an asset, and two assets share
      one only when owner, repository and digest all agree. */
  lemma CacheSlotsAreDistinct(o1: string, r1: string, s1: string, o2: string, r2: string, s2: string)
    requires Separable(o1) && Separable(r1) && Separable(s1)
    requires Separable(o2) && Separable(r2) && Separable(s2)
    ensures ManifestKey() != AssetKey(o1, r1, s1)
    ensures AssetKey(o1, r1, s1) == AssetKey(o2, r2, s2) ==> o1 == o2 && r1 == r2 && s1 == s2
  {
    ManifestIsNoAsset(o1, r1, s1);
    if AssetKey(o1, r1, s1) == AssetKey(o2, r2, s2) {
      AssetKeyParts(o1, r1, s1);
      AssetKeyParts(o2, r2, s2);
      var p1: seq<string>, p2: seq<string> := ["asset", o1, r1, s1], ["asset", o2, r2, s2];
      assert p1 == p2;
      assert p1[1] == o1 && p1[2] == r1 && p1[3] == s1;
      assert p2[1] == o2 && p2[2] == r2 && p2[3] == s2;
    }
  }

  /** An asset key splits back into its four parts. */
  lemma AssetKeyParts(o: string, r: string, s: string)
    requires Separable(o) && Separable(r) && Separable(s)
    ensures SplitKey(AssetKey(o, r, s)) == ["asset", o, r, s]
  {
    var parts := ["asset", o, r, s];
    AssetIsSeparable();
    assert forall i :: 0 <= i < |parts| ==> Separable(parts[i]);
    KeySplitRoundTrip(parts);
  }

  lemma ManifestIsNoAsset(o: string, r: string, s: string)
    ensures ManifestKey() != AssetKey(o, r, s)
  {
    var parts := ["asset", o, r, s];
    assert AssetKey(o, r, s) == "asset" + Separator + Key(parts[1..]);
    assert AssetKey(o, r, s)[0] == 'a';
    assert ManifestKey() == "manifest";
  }

  lemma AssetIsSeparable()
    ensures Separable("asset")
  {
    assert "asset"[4] != ':';
  }

  // ---------------------------------------------------------------------
  // Cache entries and expiry
  // ---------------------------------------------------------------------

  /** `expiresAt`: a time in milliseconds, or `Infinity`. */
  datatype Expiry = At(ms: int) | Never

  /** `expiresAt > now`. */
  predicate Unexpired(e: Expiry, now: int) {
    match e
    case At(t) => t > now
    case Never => true
  }

  /** What the cache holds: a parsed manifest or an asset's bytes. */
  datatype Payload = JsonData(json: Json) | Bytes(bytes: seq<int>)

  datatype CacheEntry = CacheEntry(data: Payload, expiresAt: Expiry, etag: Option<string>)

  type Cache = map<string, CacheEntry>

  /** Five minutes in milliseconds. */
  const ManifestTtl: int := 5 * 60 * 1000

  // ---------------------------------------------------------------------
  // fetchLatestReleaseManifest
  // ---------------------------------------------------------------------

  /** An asset of a GitHub release. */
  datatype ReleaseAsset = ReleaseAsset(name: string, downloadUrl: Option<string>, digest: Option<string>)

  /** A failed GitHub request, with the HTTP status when there was a
      response; a manifest that fails to parse has none. */
  datatype HttpFailure = HttpFailure(status: Option<int>)

  /** The body returned for the manifest: the downloaded text, or the
      cached manifest serialised again. */
  datatype Raw = Text(text: string) | Reserialised(data: Payload)

  datatype Manifest = Manifest(content: Payload, raw: Raw, etag: Option<string>)

  /** The first asset named `manifest.json`. */
  function FindManifestAsset(assets: seq<ReleaseAsset>): (r: Option<ReleaseAsset>)
    ensures r.Some? ==> r.value in assets && r.value.name == "manifest.json"
    ensures r.None? ==> forall i :: 0 <= i < |assets| ==> assets[i].name != "manifest.json"
    decreases |assets|
  {
    if |assets| == 0 then None
    else if assets[0].name == "manifest.json" then Some(assets[0])
    else FindManifestAsset(assets[1..])
  }

  /** The catch block: a 304 with a cached manifest re-arms its expiry and
      serves it; any other failure serves the cached manifest only while it
      is unexpired, and otherwise is passed on. */
  function Recover(cache: Cache, now: int, failure: HttpFailure): (r: (Result<Option<Manifest>, HttpFailure>, Cache))
    ensures ManifestKey() !in cache ==> r == (Err(failure), cache)
    ensures ManifestKey() in cache && failure.status == Some(304) ==>
              var c := cache[ManifestKey()];
              && r.0 == Ok(Some(Manifest(c.data, Reserialised(c.data), c.etag)))
              && r.1 == cache[ManifestKey() := c.(expiresAt := At(now + ManifestTtl))]
    ensures ManifestKey() in cache && failure.status != Some(304) ==>
              var c := cache[ManifestKey()];
              && r.1 == cache
              && (r.0.Ok? <==> Unexpired(c.expiresAt, now))
              && (r.0.Ok? ==> r.0 == Ok(Some(Manifest(c.data, Reserialised(c.data), c.etag))))
              && (r.0.Err? ==> r.0.error == failure)
  {
    if ManifestKey() !in cache then (Err(failure), cache)
    else
      var c := cache[ManifestKey()];
      if failure.status == Some(304) then
        (Ok(Some(Manifest(c.data, Reserialised(c.data), c.etag))), cache[ManifestKey() := c.(expiresAt := At(now + ManifestTtl))])
      else if Unexpired(c.expiresAt, now) then
        (Ok(Some(Manifest(c.data, Reserialised(c.data), c.etag))), cache)
      else (Err(failure), cache)
  }

  /** The outcome of downloading the manifest asset: its text, the parsed
      JSON and the `ETag`, or a failure. */
  datatype Download = Downloaded(raw: string, content: Json, etag: Option<string>) | DownloadFailed(failure: HttpFailure)

  /** `fetchLatestReleaseManifest` given the outcome of the latest-release
      request and of the manifest download (either may carry a 304, since
      both send the cached `ETag`). */
  function FetchLatestReleaseManifest(cache: Cache, now: int, latest: Result<seq<ReleaseAsset>, HttpFailure>, download: Download)
    : (r: (Result<Option<Manifest>, HttpFailure>, Cache))
    ensures latest.Err? ==> r == Recover(cache, now, latest.error)
    ensures latest.Ok? && (FindManifestAsset(latest.value).None? || !Truthy(StringOr(FindManifestAsset(latest.value).value.downloadUrl))) ==>
              r == (Ok(None), cache)
    ensures latest.Ok? && FindManifestAsset(latest.value).Some? && Truthy(StringOr(FindManifestAsset(latest.value).value.downloadUrl)) ==>
              && (download.DownloadFailed? ==> r == Recover(cache, now, download.failure))
              && (download.Downloaded? ==>
                    r == (Ok(Some(Manifest(JsonData(download.content), Text(download.raw), download.etag))),
                          cache[ManifestKey() := CacheEntry(JsonData(download.content), At(now + ManifestTtl), download.etag)]))
    ensures r.0.Ok? && r.0.value.Some? ==> ManifestKey() in r.1
    ensures download.Downloaded? && latest.Ok? && r.0.Ok? && r.0.value.Some? ==>
              r.1 == cache[ManifestKey() := CacheEntry(JsonData(download.content), At(now + ManifestTtl), download.etag)]
              && r.0.value.value == Manifest(JsonData(download.content), Text(download.raw), download.etag)
    ensures forall k :: k != ManifestKey() ==> (k in r.1 <==> k in cache) && (k in cache ==> r.1[k] == cache[k])
  {
    match latest
    case Err(f) => Recover(cache, now, f)
    case Ok(assets) =>
      var asset := FindManifestAsset(assets);
      if asset.None? || !Truthy(StringOr(asset.value.downloadUrl)) then (Ok(None), cache)
      else
        match download
        case DownloadFailed(f) => Recover(cache, now, f)
        case Downloaded(raw, content, etag) =>
          (Ok(Some(Manifest(JsonData(content), Text(raw), etag))),
           cache[ManifestKey() := CacheEntry(JsonData(content), At(now + ManifestTtl), etag)])
  }

  /** An absent string property as JSON `undefined`, i.e. falsy. */
  function StringOr(v: Option<string>): Json {
    if v.Some? then JString(v.value) else JNull
  }

  /** A manifest fetched or re-armed at `now` is served from the cache by
      any failing request within the next five minutes. */
  lemma FreshManifestSurvivesFailures(cache: Cache, now: int, later: int, failure: HttpFailure)
    requires ManifestKey() in cache && cache[ManifestKey()].expiresAt == At(now + ManifestTtl)
    requires now <= later < now + ManifestTtl
    ensures Recover(cache, later, failure).0.Ok?
  {
  }

  /** A manifest downloaded at `now` is what a later fetch serves, as its
      cached JSON re-serialised, when the latest-release request fails
      within the next five minutes, and also on a `304` at any time. */
  lemma DownloadedManifestServedOnFailure(cache: Cache, now: int, assets: seq<ReleaseAsset>, raw: string, content: Json,
                                          etag: Option<string>, later: int, failure: HttpFailure, download2: Download)
    requires FindManifestAsset(assets).Some? && Truthy(StringOr(FindManifestAsset(assets).value.downloadUrl))
    requires failure.status == Some(304) || now <= later < now + ManifestTtl
    ensures var c := FetchLatestReleaseManifest(cache, now, Ok(assets), Downloaded(raw, content, etag)).1;
            FetchLatestReleaseManifest(c, later, Err(failure), download2).0
              == Ok(Some(Manifest(JsonData(content), Reserialised(JsonData(content)), etag)))
  {
  }

  /** The manifest route's response: 404 with no manifest, 500 on a failure
      that could not be covered from the cache, else 200 with the raw
      manifest, the `ETag` header when there is one, and a 60-second
      client cache. */
  datatype ManifestResponse = ManifestNotFound | ManifestError | ManifestOk(raw: Raw, etagHeader: Option<string>)

  function ManifestRoute(r: Result<Option<Manifest>, HttpFailure>): (resp: ManifestResponse)
    ensures resp.ManifestOk? <==> r.Ok? && r.value.Some?
    ensures resp.ManifestOk? ==> resp.raw == r.value.value.raw
    ensures resp.ManifestOk? ==> (resp.etagHeader.Some? <==> r.value.value.etag.Some? && r.value.value.etag.value != "")
  {
    match r
    case Err(_) => ManifestError
    case Ok(None) => ManifestNotFound
    case Ok(Some(m)) => ManifestOk(m.raw, if m.etag.Some? && m.etag.value != "" then m.etag else None)
  }

  // ---------------------------------------------------------------------
  // Manifest entries
  // ---------------------------------------------------------------------

  /** `Array.isArray(manifest) ? manifest : (manifest.plugins ||
      manifest.entries || [])`; `Err` when the value picked is truthy but
      not an array, where calling `find` on it throws. */
  function EntriesOf(manifest: Payload): (r: Result<seq<Json>, string>)
    ensures manifest.JsonData? && manifest.json.JArray? ==> r == Ok(manifest.json.items)
    ensures manifest.Bytes? ==> r == Ok([])
    ensures manifest.JsonData? && !manifest.json.JArray? ==>
              var plugins, entries := Get(manifest.json, "plugins"), Get(manifest.json, "entries");
              && (TruthyOpt(plugins) ==> (r.Ok? <==> plugins.value.JArray?) && (r.Ok? ==> r.value == plugins.value.items))
              && (!TruthyOpt(plugins) && TruthyOpt(entries) ==>
                    (r.Ok? <==> entries.value.JArray?) && (r.Ok? ==> r.value == entries.value.items))
              && (!TruthyOpt(plugins) && !TruthyOpt(entries) ==> r == Ok([]))
  {
    match manifest
    case Bytes(_) => Ok([])
    case JsonData(v) =>
      if v.JArray? then Ok(v.items)
      else
        var plugins := Get(v, "plugins");
        var entries := Get(v, "entries");
        var picked := if TruthyOpt(plugins) then plugins else if TruthyOpt(entries) then entries else None;
        if picked.None? then Ok([])
        else if picked.value.JArray? then Ok(picked.value.items)
        else Err("entries.find is not a function")
  }

  /** The three manifest shapes the route accepts carry the same entries: a
      bare array, an object with a `plugins` array, and an object with an
      `entries` array; `plugins` wins over `entries`, and an object with
      neither has no entries. */
  lemma ManifestShapesAgree(xs: seq<Json>, ys: seq<Json>)
    ensures EntriesOf(JsonData(JObject(map["plugins" := JArray(xs)]))) == Ok(xs)
    ensures EntriesOf(JsonData(JObject(map["entries" := JArray(xs)]))) == Ok(xs)
    ensures EntriesOf(JsonData(JObject(map["plugins" := JArray(xs), "entries" := JArray(ys)]))) == Ok(xs)
    ensures EntriesOf(JsonData(JObject(map["entries" := JArray(xs), "plugins" := JNull]))) == Ok(xs)
    ensures EntriesOf(JsonData(JObject(map[]))) == Ok([])
    ensures EntriesOf(JsonData(JObject(map["plugins" := JString("x")]))).Err?
  {
    assert "plugins" != "entries" by { assert "plugins"[0] != "entries"[0]; }
  }

  /** `e.repository_owner === owner && (e.display_name === name ||
      e.repository_name === name)`. */
  predicate EntryMatches(e: Json, owner: string, name: string) {
    Get(e, "repository_owner") == Some(JString(owner))
    && (Get(e, "display_name") == Some(JString(name)) || Get(e, "repository_name") == Some(JString(name)))
  }

  /** `entries.find(...)`: the first matching entry; `Err` when a `null`
      entry is reached first, where reading a property of it throws. */
  function FindEntry(entries: seq<Json>, owner: string, name: string): (r: Result<Option<Json>, string>)
    ensures r.Ok? && r.value.Some? ==>
              exists i :: 0 <= i < |entries| && entries[i] == r.value.value && EntryMatches(entries[i], owner, name)
                          && forall j :: 0 <= j < i ==> !EntryMatches(entries[j], owner, name)
    ensures r == Ok(None) ==> forall i :: 0 <= i < |entries| ==> !EntryMatches(entries[i], owner, name)
    ensures (forall i :: 0 <= i < |entries| ==> entries[i] != JNull) ==> r.Ok?
    ensures r.Err? <==> NullBeforeMatch(entries, owner, name)
    decreases |entries|
  {
    if |entries| == 0 then Ok(None)
    else if entries[0] == JNull then
      assert entries[0] == JNull;
      Err("Cannot read properties of null")
    else if EntryMatches(entries[0], owner, name) then
      MatchAtHeadHasNoNullBefore(entries, owner, name);
      Ok(Some(entries[0]))
    else
      var rest := FindEntry(entries[1..], owner, name);
      assert (forall i :: 0 <= i < |entries| ==> entries[i] != JNull) ==> (forall i :: 0 <= i < |entries[1..]| ==> entries[1..][i] != JNull);
      NullBeforeMatchStep(entries, owner, name);
      if rest.Ok? && rest.value.Some? then
        FirstEntryStep(entries, owner, name, rest.value.value);
        rest
      else rest
  }

  /** Some `null` entry comes before every matching entry, so `find`
      reaches it and throws. */
  predicate NullBeforeMatch(entries: seq<Json>, owner: string, name: string) {
    exists i :: 0 <= i < |entries| && entries[i] == JNull && NoMatchBefore(entries, owner, name, i)
  }

  predicate NoMatchBefore(entries: seq<Json>, owner: string, name: string, i: int)
    requires 0 <= i <= |entries|
  {
    forall j :: 0 <= j < i ==> !EntryMatches(entries[j], owner, name)
  }

  lemma MatchAtHeadHasNoNullBefore(entries: seq<Json>, owner: string, name: string)
    requires |entries| > 0 && EntryMatches(entries[0], owner, name)
    ensures !NullBeforeMatch(entries, owner, name)
  {
    forall i | 0 <= i < |entries| && entries[i] == JNull
      ensures !NoMatchBefore(entries, owner, name, i)
    {
      assert 0 < i;
    }
  }

  /** Past a head that is neither `null` nor a match, a `null` comes before
      every match of the list exactly when it does in the tail. */
  lemma NullBeforeMatchStep(entries: seq<Json>, owner: string, name: string)
    requires |entries| > 0 && entries[0] != JNull && !EntryMatches(entries[0], owner, name)
    ensures NullBeforeMatch(entries, owner, name) <==> NullBeforeMatch(entries[1..], owner, name)
  {
    var tail := entries[1..];
    if NullBeforeMatch(entries, owner, name) {
      var i :| 0 <= i < |entries| && entries[i] == JNull && NoMatchBefore(entries, owner, name, i);
      assert i > 0;
      assert tail[i - 1] == JNull;
      assert forall j :: 0 <= j < i - 1 ==> tail[j] == entries[j + 1];
      assert NoMatchBefore(tail, owner, name, i - 1);
    }
    if NullBeforeMatch(tail, owner, name) {
      var i :| 0 <= i < |tail| && tail[i] == JNull && NoMatchBefore(tail, owner, name, i);
      assert entries[i + 1] == JNull;
      assert forall j :: 1 <= j < i + 1 ==> entries[j] == tail[j - 1];
      assert NoMatchBefore(entries, owner, name, i + 1);
    }
  }

  /** `find` over a concatenation: the first list decides unless it runs
      out without a match or a `null`. */
  lemma {:induction false} FindEntryAppend(a: seq<Json>, b: seq<Json>, owner: string, name: string)
    ensures FindEntry(a + b, owner, name) == if FindEntry(a, owner, name) == Ok(None) then FindEntry(b, owner, name) else FindEntry(a, owner, name)
    decreases |a|
  {
    if |a| == 0 {
      assert a + b == b;
    } else {
      assert (a + b)[0] == a[0];
      assert (a + b)[1..] == a[1..] + b;
      FindEntryAppend(a[1..], b, owner, name);
    }
  }

  /** A first match in the tail, after a non-matching head, is the first
      match of the whole list. */
  lemma FirstEntryStep(entries: seq<Json>, owner: string, name: string, v: Json)
    requires |entries| > 0 && !EntryMatches(entries[0], owner, name)
    requires exists i :: 0 <= i < |entries[1..]| && entries[1..][i] == v && EntryMatches(entries[1..][i], owner, name)
                         && forall j :: 0 <= j < i ==> !EntryMatches(entries[1..][j], owner, name)
    ensures exists i :: 0 <= i < |entries| && entries[i] == v && EntryMatches(entries[i], owner, name)
                        && forall j :: 0 <= j < i ==> !EntryMatches(entries[j], owner, name)
  {
    var i :| 0 <= i < |entries[1..]| && entries[1..][i] == v && EntryMatches(entries[1..][i], owner, name)
             && forall j :: 0 <= j < i ==> !EntryMatches(entries[1..][j], owner, name);
    assert entries[i + 1] == v;
    assert forall j :: 1 <= j < i + 1 ==> entries[j] == entries[1..][j - 1];
  }

  /** What the plugin route decides before fetching the asset. */
  datatype Lookup =
    | ManifestMissing         // 404 `Manifest not found`
    | PluginMissing           // 404 `Plugin not found in manifest`
    | LookupCrashed           // 500: a property of `null` or `find` of a non-array
    | FetchAsset(entry: Json) // fetch with the entry's owner, repository name and digest

  /** The lookup half of `GET /:owner/:repo`. */
  function PluginLookup(m: Result<Option<Manifest>, HttpFailure>, owner: string, name: string): (r: Lookup)
    ensures m.Err? ==> r == LookupCrashed
    ensures m == Ok(None) ==> r == ManifestMissing
    ensures r.FetchAsset? ==> EntryMatches(r.entry, owner, name) && TruthyOpt(Get(r.entry, "asset_sha"))
    ensures m.Ok? && m.value.Some? && m.value.value.content.JsonData? && !Truthy(m.value.value.content.json) ==>
              r == ManifestMissing
    ensures m.Ok? && m.value.Some? && (m.value.value.content.Bytes? || Truthy(m.value.value.content.json)) ==>
              var es := EntriesOf(m.value.value.content);
              && (es.Err? ==> r == LookupCrashed)
              && (es.Ok? ==>
                    var found := FindEntry(es.value, owner, name);
                    && (r == LookupCrashed <==> found.Err?)
                    && (found == Ok(None) ==> r == PluginMissing)
                    && (found.Ok? && found.value.Some? ==>
                          r == if TruthyOpt(Get(found.value.value, "asset_sha")) then FetchAsset(found.value.value) else PluginMissing))
  {
    match m
    case Err(_) => LookupCrashed
    case Ok(None) => ManifestMissing
    case Ok(Some(man)) =>
      if man.content.JsonData? && !Truthy(man.content.json) then ManifestMissing
      else
        match EntriesOf(man.content)
        case Err(_) => LookupCrashed
        case Ok(entries) =>
          match FindEntry(entries, owner, name)
          case Err(_) => LookupCrashed
          case Ok(None) => PluginMissing
          case Ok(Some(e)) => if TruthyOpt(Get(e, "asset_sha")) then FetchAsset(e) else PluginMissing
  }

  /** For a manifest that is an array of entries, the lookup fetches the
      asset of the first entry matching owner and name when that entry has
      a truthy `asset_sha`, crashes when a `null` comes first, and reports
      the plugin missing otherwise. */
  lemma LookupOfArrayManifest(xs: seq<Json>, raw: Raw, etag: Option<string>, owner: string, name: string, i: int)
    requires 0 <= i < |xs| && EntryMatches(xs[i], owner, name)
    requires forall j :: 0 <= j < i ==> xs[j] != JNull && !EntryMatches(xs[j], owner, name)
    ensures var r := PluginLookup(Ok(Some(Manifest(JsonData(JArray(xs)), raw, etag))), owner, name);
            r == if TruthyOpt(Get(xs[i], "asset_sha")) then FetchAsset(xs[i]) else PluginMissing
  {
    FirstMatchIsFound(xs, owner, name, i);
    var man := Manifest(JsonData(JArray(xs)), raw, etag);
    assert EntriesOf(man.content) == Ok(xs);
  }

  lemma FirstMatchIsFound(xs: seq<Json>, owner: string, name: string, i: int)
    requires 0 <= i < |xs| && EntryMatches(xs[i], owner, name)
    requires forall j :: 0 <= j < i ==> xs[j] != JNull && !EntryMatches(xs[j], owner, name)
    ensures FindEntry(xs, owner, name) == Ok(Some(xs[i]))
  {
    FindEntryAppend(xs[..i], xs[i..], owner, name);
    assert xs[..i] + xs[i..] == xs;
    NoNullNoMatch(xs[..i], owner, name);
    assert xs[i..][0] == xs[i];
    assert xs[i] != JNull;
  }

  lemma {:induction false} NoNullNoMatch(xs: seq<Json>, owner: string, name: string)
    requires forall j :: 0 <= j < |xs| ==> xs[j] != JNull && !EntryMatches(xs[j], owner, name)
    ensures FindEntry(xs, owner, name) == Ok(None)
    decreases |xs|
  {
    if |xs| > 0 {
      assert forall j :: 0 <= j < |xs[1..]| ==> xs[1..][j] == xs[j + 1];
      NoNullNoMatch(xs[1..], owner, name);
    }
  }

  // ---------------------------------------------------------------------
  // fetchPluginAsset
  // ---------------------------------------------------------------------

  datatype Release = Release(assets: seq<ReleaseAsset>)

  /** The first asset, across the releases in order and within each
      release in order, whose digest is `sha`. */
  function FindAssetByDigest(releases: seq<Release>, sha: string): (r: Option<ReleaseAsset>)
    decreases |releases|
  {
    if |releases| == 0 then None
    else
      match FindInRelease(releases[0].assets, sha)
      case Some(a) => Some(a)
      case None => FindAssetByDigest(releases[1..], sha)
  }

  function FindInRelease(assets: seq<ReleaseAsset>, sha: string): Option<ReleaseAsset>
    decreases |assets|
  {
    if |assets| == 0 then None
    else if assets[0].digest == Some(sha) then Some(assets[0])
    else FindInRelease(assets[1..], sha)
  }

  /** All assets of all releases, in order. */
  function AllAssets(releases: seq<Release>): seq<ReleaseAsset>
    decreases |releases|
  {
    if |releases| == 0 then [] else releases[0].assets + AllAssets(releases[1..])
  }

  /** The reference meaning: the first asset of the flattened list whose
      digest is `sha`. */
  function FirstWithDigest(assets: seq<ReleaseAsset>, sha: string): (r: Option<ReleaseAsset>)
    ensures r.Some? ==> (exists i :: 0 <= i < |assets| && assets[i] == r.value && assets[i].digest == Some(sha)
                                      && forall j :: 0 <= j < i ==> assets[j].digest != Some(sha))
    ensures r.None? ==> forall i :: 0 <= i < |assets| ==> assets[i].digest != Some(sha)
    decreases |assets|
  {
    if |assets| == 0 then None
    else if assets[0].digest == Some(sha) then Some(assets[0])
    else
      var r := FirstWithDigest(assets[1..], sha);
      if r.Some? then
        FirstDigestStep(assets, sha, r.value);
        r
      else r
  }

  lemma FirstDigestStep(assets: seq<ReleaseAsset>, sha: string, v: ReleaseAsset)
    requires |assets| > 0 && assets[0].digest != Some(sha)
    requires exists i :: 0 <= i < |assets[1..]| && assets[1..][i] == v && assets[1..][i].digest == Some(sha)
                         && forall j :: 0 <= j < i ==> assets[1..][j].digest != Some(sha)
    ensures exists i :: 0 <= i < |assets| && assets[i] == v && assets[i].digest == Some(sha)
                        && forall j :: 0 <= j < i ==> assets[j].digest != Some(sha)
  {
    var i :| 0 <= i < |assets[1..]| && assets[1..][i] == v && assets[1..][i].digest == Some(sha)
             && forall j :: 0 <= j < i ==> assets[1..][j].digest != Some(sha);
    assert assets[i + 1] == v;
    assert forall j :: 1 <= j < i + 1 ==> assets[j] == assets[1..][j - 1];
  }

  lemma {:induction false} FindInReleaseIsFirst(assets: seq<ReleaseAsset>, sha: string)
    ensures FindInRelease(assets, sha) == FirstWithDigest(assets, sha)
    decreases |assets|
  {
    if |assets| > 0 {
      FindInReleaseIsFirst(assets[1..], sha);
    }
  }

  lemma {:induction false} FirstWithDigestAppend(a: seq<ReleaseAsset>, b: seq<ReleaseAsset>, sha: string)
    ensures FirstWithDigest(a + b, sha) == if FirstWithDigest(a, sha).Some? then FirstWithDigest(a, sha) else FirstWithDigest(b, sha)
    decreases |a|
  {
    if |a| > 0 {
      assert (a + b)[1..] == a[1..] + b;
      FirstWithDigestAppend(a[1..], b, sha);
    } else {
      assert a + b == b;
    }
  }

  /** The nested search over releases finds the first matching asset of
      the flattened list. */
  lemma {:induction false} AssetSearchIsFirstMatch(releases: seq<Release>, sha: string)
    ensures FindAssetByDigest(releases, sha) == FirstWithDigest(AllAssets(releases), sha)
    decreases |releases|
  {
    if |releases| > 0 {
      AssetSearchIsFirstMatch(releases[1..], sha);
      FindInReleaseIsFirst(releases[0].assets, sha);
      FirstWithDigestAppend(releases[0].assets, AllAssets(releases[1..]), sha);
    }
  }

  datatype AssetError = ReleasesFailed(failure: HttpFailure) | AssetNotFound | AssetDownloadFailed(failure: HttpFailure)

  /** `fetchPluginAsset` given the outcome of the releases request and of
      the asset download: an unexpired cached copy is served without any
      request; otherwise the first asset with that digest is downloaded and
      cached for ever. */
  function FetchPluginAsset(cache: Cache, now: int, owner: string, repo: string, sha: string,
                            releases: Result<seq<Release>, HttpFailure>, download: Result<seq<int>, HttpFailure>)
    : (r: (Result<seq<int>, AssetError>, Cache))
    ensures var k := AssetKey(owner, repo, sha);
            k in cache && Unexpired(cache[k].expiresAt, now) ==>
              r == (Ok(if cache[k].data.Bytes? then cache[k].data.bytes else []), cache)
    ensures releases.Ok? && FirstWithDigest(AllAssets(releases.value), sha).None? ==>
              r.0.Ok? || r.0 == Err(AssetNotFound)
    ensures var k := AssetKey(owner, repo, sha);
            !(k in cache && Unexpired(cache[k].expiresAt, now)) ==>
              && (releases.Err? ==> r == (Err(ReleasesFailed(releases.error)), cache))
              && (releases.Ok? && FirstWithDigest(AllAssets(releases.value), sha).None? ==> r == (Err(AssetNotFound), cache))
              && (releases.Ok? && FirstWithDigest(AllAssets(releases.value), sha).Some? ==>
                    r == match download
                         case Err(f) => (Err(AssetDownloadFailed(f)), cache)
                         case Ok(bytes) => (Ok(bytes), cache[k := CacheEntry(Bytes(bytes), Never, None)]))
    ensures r.1 != cache ==> (r.0.Ok? && download.Ok? && r.0.value == download.value
                              && r.1 == cache[AssetKey(owner, repo, sha) := CacheEntry(Bytes(download.value), Never, None)])
  {
    var k := AssetKey(owner, repo, sha);
    if k in cache && Unexpired(cache[k].expiresAt, now) then
      (Ok(if cache[k].data.Bytes? then cache[k].data.bytes else []), cache)
    else
      match releases
      case Err(f) => (Err(ReleasesFailed(f)), cache)
      case Ok(rs) =>
        AssetSearchIsFirstMatch(rs, sha);
        match FindAssetByDigest(rs, sha)
        case None => (Err(AssetNotFound), cache)
        case Some(_) =>
          match download
          case Err(f) => (Err(AssetDownloadFailed(f)), cache)
          case Ok(bytes) => (Ok(bytes), cache[k := CacheEntry(Bytes(bytes), Never, None)])
  }

  /** Once fetched, an asset is served from the cache at any later time,
      whatever GitHub would answer. */
  lemma FetchedAssetIsCachedForever(cache: Cache, now: int, later: int, owner: string, repo: string, sha: string,
                                    releases: Result<seq<Release>, HttpFailure>, download: Result<seq<int>, HttpFailure>,
                                    releases2: Result<seq<Release>, HttpFailure>, download2: Result<seq<int>, HttpFailure>)
    requires FetchPluginAsset(cache, now, owner, repo, sha, releases, download).0.Ok?
    ensures var (r, c) := FetchPluginAsset(cache, now, owner, repo, sha, releases, download);
            var k := AssetKey(owner, repo, sha);
            (k in cache && Unexpired(cache[k].expiresAt, now)) || FetchPluginAsset(c, later, owner, repo, sha, releases2, download2) == (r, c)
  {
  }
}
