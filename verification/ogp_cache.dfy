/** `src/utils/ogpImageCache.ts`: remote OGP images of link cards, downloaded once, converted
    to WebP under `public/ogp-cache`, and remembered in `.cache/ogp-manifest.json` with the time
    they were cached. MD5 is a parameter `key`; the fetch and the conversion are an outcome;
    the clock is a parameter in milliseconds. */
module OgpCache {
  import opened Strings
  import opened Sites

  const MS_PER_DAY: int := 1000 * 60 * 60 * 24

  /** `cachedAt` is an ISO date; `None` is a date `new Date` cannot read. */
  datatype CacheEntry = CacheEntry(localPath: string, cachedAt: Option<int>)

  datatype CacheManifest = CacheManifest(version: int, entries: map<string, CacheEntry>)

  datatype StoredCache = Missing | Unparsable | Stored(manifest: CacheManifest)

  /** The manifest file and the names of the files in `public/ogp-cache`. */
  datatype CacheStore = CacheStore(manifest: StoredCache, files: set<string>)

  /** `loadManifest()`: a missing or unreadable file reads as an empty version-1 manifest. */
  function LoadManifest(s: StoredCache): (r: CacheManifest)
    ensures s.Stored? ==> r == s.manifest
    ensures !s.Stored? ==> r == CacheManifest(1, map[])
  {
    if s.Stored? then s.manifest else CacheManifest(1, map[])
  }

  function Entries(st: CacheStore): map<string, CacheEntry> {
    LoadManifest(st.manifest).entries
  }

  /** `isCacheValid(cachedAt)` for a maximum age in days: a maximum of zero or less never
      expires; otherwise the entry is valid while fewer than that many days have passed. An
      unreadable date gives `NaN`, which is never less than the maximum. */
  predicate IsCacheValidFor(maxAgeDays: int, cachedAt: Option<int>, now: int) {
    if maxAgeDays <= 0 then true
    else cachedAt.Some? && now - cachedAt.value < maxAgeDays * MS_PER_DAY
  }

  /** `isCacheValid` with `OGP_CACHE_MAX_AGE_DAYS`. */
  predicate IsCacheValid(cachedAt: Option<int>, now: int) {
    IsCacheValidFor(OGP_CACHE_MAX_AGE_DAYS, cachedAt, now)
  }

  /** A valid entry was valid at every earlier moment; an entry cached just now is valid; with
      a positive maximum, an entry is invalid from the moment its age reaches the maximum. */
  lemma CacheValidity(maxAgeDays: int, cachedAt: int, now: int, earlier: int)
    requires earlier <= now
    ensures IsCacheValidFor(maxAgeDays, Some(cachedAt), now) ==> IsCacheValidFor(maxAgeDays, Some(cachedAt), earlier)
    ensures IsCacheValidFor(maxAgeDays, Some(cachedAt), cachedAt)
    ensures maxAgeDays > 0 ==>
              (IsCacheValidFor(maxAgeDays, Some(cachedAt), now) <==> now < cachedAt + maxAgeDays * MS_PER_DAY)
  {
  }

  /** `/ogp-cache/${cacheKey}.webp` */
  function CachePath(cacheKey: string): (r: string)
    ensures StartsWith(r, "/ogp-cache/")
  {
    var r := "/ogp-cache/" + (cacheKey + ".webp");
    assert r[..11] == "/ogp-cache/";
    r
  }

  /** `getLocalImagePath(imageUrl)`: the recorded path of a valid entry whose file exists;
      the file is the path without its first `/ogp-cache/`. */
  function GetLocalImagePath(st: CacheStore, imageUrl: string, now: int): (r: Option<string>)
    ensures r.Some? <==>
              imageUrl in Entries(st) && IsCacheValid(Entries(st)[imageUrl].cachedAt, now)
              && ReplaceFirst(Entries(st)[imageUrl].localPath, "/ogp-cache/", "") in st.files
    ensures r.Some? ==> r.value == Entries(st)[imageUrl].localPath
  {
    var entries := Entries(st);
    if imageUrl !in entries then None
    else
      var entry := entries[imageUrl];
      if !IsCacheValid(entry.cachedAt, now) then None
      else if ReplaceFirst(entry.localPath, "/ogp-cache/", "") !in st.files then None
      else Some(entry.localPath)
  }

  /** The fetch, with its ten-second timeout, and the conversion by sharp. */
  datatype FetchOutcome = Fetched | NotOk | Failed

  /** `getLocalImagePath` finds a path that is not empty, so no download happens. */
  predicate HasCachedPath(st: CacheStore, imageUrl: string, now: int) {
    var existing := GetLocalImagePath(st, imageUrl, now);
    existing.Some? && existing.value != ""
  }

  /** `downloadAndCacheImage(imageUrl)`: a cached path that is not empty is returned as it is;
      otherwise the image is fetched, written as `<key>.webp`, and recorded in the re-read
      manifest with the current time. A failed fetch or conversion returns `None` and changes
      nothing. */
  function DownloadAndCacheImage(st: CacheStore, key: string -> string, imageUrl: string, now: int,
                                 fetch: FetchOutcome): (r: (Option<string>, CacheStore))
    ensures HasCachedPath(st, imageUrl, now) ==> r == (GetLocalImagePath(st, imageUrl, now), st)
    ensures !HasCachedPath(st, imageUrl, now) && fetch != Fetched ==> r == (None, st)
    ensures !HasCachedPath(st, imageUrl, now) && fetch == Fetched ==>
              && r.0 == Some(CachePath(key(imageUrl)))
              && r.1.files == st.files + {key(imageUrl) + ".webp"}
              && imageUrl in Entries(r.1) && Entries(r.1)[imageUrl] == CacheEntry(CachePath(key(imageUrl)), Some(now))
    ensures r.0.None? ==> r.1 == st
    ensures r.1 != st ==> r.0 == Some(CachePath(key(imageUrl))) && r.1.files == st.files + {key(imageUrl) + ".webp"}
    ensures r.1 != st ==> imageUrl in Entries(r.1) && Entries(r.1)[imageUrl] == CacheEntry(CachePath(key(imageUrl)), Some(now))
    ensures forall u :: u != imageUrl ==>
              (u in Entries(r.1) <==> u in Entries(st)) && (u in Entries(st) ==> Entries(r.1)[u] == Entries(st)[u])
    ensures st.files <= r.1.files
  {
    if HasCachedPath(st, imageUrl, now) then (GetLocalImagePath(st, imageUrl, now), st)
    else if fetch != Fetched then (None, st)
    else
      var fileName := key(imageUrl) + ".webp";
      var m := LoadManifest(st.manifest);
      var localPath := CachePath(key(imageUrl));
      var m' := m.(entries := m.entries[imageUrl := CacheEntry(localPath, Some(now))]);
      (Some(localPath), CacheStore(Stored(m'), st.files + {fileName}))
  }

  /** The path a download returns is the path a lookup at the same moment finds; a fresh
      download is found again from then on, until it is as old as the maximum age. */
  lemma DownloadThenLookup(st: CacheStore, key: string -> string, imageUrl: string, now: int, later: int)
    requires now <= later < now + OGP_CACHE_MAX_AGE_DAYS * MS_PER_DAY
    ensures var (path, st1) := DownloadAndCacheImage(st, key, imageUrl, now, Fetched);
            path.Some? && GetLocalImagePath(st1, imageUrl, now) == path
            && (st1 != st ==> GetLocalImagePath(st1, imageUrl, later) == path)
  {
    var existing := GetLocalImagePath(st, imageUrl, now);
    if !(existing.Some? && existing.value != "") {
      ReplaceFirstAtStart("/ogp-cache/", key(imageUrl) + ".webp");
    }
  }

  /** A second download of the same URL at the same moment returns the same path and changes
      nothing. */
  lemma DownloadIdempotent(st: CacheStore, key: string -> string, imageUrl: string, now: int,
                           fetch: FetchOutcome, again: FetchOutcome)
    ensures var (path, st1) := DownloadAndCacheImage(st, key, imageUrl, now, fetch);
            path.Some? && path.value != "" ==> DownloadAndCacheImage(st1, key, imageUrl, now, again) == (path, st1)
  {
    if fetch == Fetched {
      DownloadThenLookup(st, key, imageUrl, now, now);
    }
  }
}
