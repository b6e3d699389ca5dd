/** The multi-site table of `src/config/sites.config.ts`: one entry per statically built
    site variant, in declaration order, plus the build-wide constants. */
module Sites {
  import opened Strings

  /** One site variant. `categories == None` admits every category and
      `ageRestricted == None` admits both kinds of post. */
  datatype SiteDef = SiteDef(
    key: string,
    url: string,
    devPort: nat,
    outDir: string,
    categories: Option<seq<string>>,
    ageRestricted: Option<bool>)

  /** The key of the catch-all site every build must declare. */
  const ALL_KEY: string := "all"

  const DIARY: SiteDef :=
    SiteDef("diary", "https://diary-blog.example.com", 4322, "dist_diary", Some(["日記"]), Some(false))
  const HOGE: SiteDef :=
    SiteDef("hoge", "https://hoge-blog.example.com", 4323, "dist_hoge", None, Some(true))
  const ALL: SiteDef :=
    SiteDef(ALL_KEY, "https://blog.example.com", 4321, "dist", None, None)

  /** `SITES`, in the declaration order that `Object.entries` reports. */
  const SITES: seq<SiteDef> := [DIARY, HOGE, ALL]

  /** `CANONICAL_SITE_URL` */
  const CANONICAL_SITE_URL: string := ALL.url

  /** `POSTS_PER_PAGE` */
  const POSTS_PER_PAGE: nat := 8

  /** `OGP_CACHE_MAX_AGE_DAYS`; a value of zero or less means the cache never expires. */
  const OGP_CACHE_MAX_AGE_DAYS: int := 30

  /** The site keys in declaration order (`Object.keys(SITES)`). */
  function Keys(sites: seq<SiteDef>): (r: seq<string>)
    ensures |r| == |sites|
    ensures forall i :: 0 <= i < |sites| ==> r[i] == sites[i].key
  {
    seq(|sites|, i requires 0 <= i < |sites| => sites[i].key)
  }

  /** Object keys are unique. */
  predicate DistinctKeys(sites: seq<SiteDef>) {
    forall i, j :: 0 <= i < j < |sites| ==> sites[i].key != sites[j].key
  }

  /** What the source's type-level check demands of a site table: an `all` entry exists.
      Keys are unique because they are object keys, and a site keyed by the empty string
      could never be selected, since an empty `SITE_TYPE` stands for `all`. */
  predicate WellFormed(sites: seq<SiteDef>) {
    && DistinctKeys(sites)
    && ALL_KEY in Keys(sites)
    && "" !in Keys(sites)
  }

  /** `SITES[key]`, `None` for a key the table does not declare. */
  function Lookup(sites: seq<SiteDef>, key: string): (r: Option<SiteDef>)
    ensures r.Some? ==> r.value in sites && r.value.key == key
    ensures r.None? <==> key !in Keys(sites)
    ensures DistinctKeys(sites) ==> forall i :: 0 <= i < |sites| && sites[i].key == key ==> r == Some(sites[i])
  {
    if |sites| == 0 then None
    else if sites[0].key == key then Some(sites[0])
    else
      assert Keys(sites) == [sites[0].key] + Keys(sites[1..]);
      Lookup(sites[1..], key)
  }

  /** `SITES.all`. */
  function AllSite(sites: seq<SiteDef>): (r: SiteDef)
    requires WellFormed(sites)
    ensures r in sites && r.key == ALL_KEY
  {
    Lookup(sites, ALL_KEY).value
  }

  /** The concrete table satisfies the type-level check. */
  lemma SitesWellFormed()
    ensures WellFormed(SITES)
  {
    assert Keys(SITES) == ["diary", "hoge", "all"];
  }

  /** The `all` site filters on neither category nor age, and the canonical URL is its URL. */
  lemma AllSiteIsUnfiltered()
    ensures WellFormed(SITES)
    ensures AllSite(SITES).categories.None? && AllSite(SITES).ageRestricted.None?
    ensures CANONICAL_SITE_URL == AllSite(SITES).url
  {
    SitesWellFormed();
    assert Lookup(SITES, ALL_KEY) == Some(ALL);
  }
}
