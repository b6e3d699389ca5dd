/** Routing of `src/utils/siteConfig.ts`: which site variant is being built, which variant
    renders a post's detail page, and which URLs and canonical URLs pages get.
    The build environment (`import.meta.env`) is the explicit `Env` parameter. */
module SiteConfig {
  import opened Strings
  import opened Sites
  import opened SiteHelpers

  /** `SiteConfigItem`: a site of the table plus its derived development URL. */
  datatype SiteConfigItem = SiteConfigItem(def: SiteDef, devUrl: string)

  /** `SITE_CONFIG`: the table with each site's `devUrl` filled in. */
  function SiteConfigTable(sites: seq<SiteDef>): (r: seq<SiteConfigItem>)
    ensures |r| == |sites|
    ensures forall i :: 0 <= i < |sites| ==> r[i].def == sites[i]
    ensures DistinctKeys(sites) ==>
              forall i :: 0 <= i < |sites| ==> r[i].devUrl == LOCALHOST + NatToString(sites[i].devPort)
  {
    seq(|sites|, i requires 0 <= i < |sites| => SiteConfigItem(sites[i], GetDevUrl(sites, sites[i].key)))
  }

  /** The variables of `import.meta.env` the routing reads. `siteType` is `SITE_TYPE`, where
      the empty string stands for an unset variable; `showDrafts` is `SHOW_DRAFTS`. */
  datatype Env = Env(dev: bool, siteType: string, showDrafts: Option<string>)

  /** The environment with `SITE_TYPE` set to `key`. */
  function EnvFor(env: Env, key: string): Env {
    env.(siteType := key)
  }

  /** `shouldShowDrafts()` */
  function ShouldShowDrafts(env: Env): (r: bool)
    ensures !env.dev ==> !r
    ensures env.dev ==> (r <==> env.showDrafts != Some("false"))
  {
    if !env.dev then false
    else env.showDrafts != Some("false")
  }

  /** `import.meta.env.SITE_TYPE || 'all'` */
  function RequestedSiteType(env: Env): string {
    if env.siteType == "" then ALL_KEY else env.siteType
  }

  /** `getSiteType()`: the requested key when the table declares it, `all` otherwise. */
  function GetSiteType(sites: seq<SiteDef>, env: Env): (r: string)
    ensures RequestedSiteType(env) in Keys(sites) ==> r == RequestedSiteType(env)
    ensures RequestedSiteType(env) !in Keys(sites) ==> r == ALL_KEY
    ensures env.siteType == "" ==> r == ALL_KEY
    ensures WellFormed(sites) ==> r in Keys(sites)
  {
    var t := RequestedSiteType(env);
    if t !in Keys(sites) then ALL_KEY else t
  }

  /** Selecting a declared site through `SITE_TYPE` builds exactly that site. */
  lemma SiteTypeOfEnvFor(sites: seq<SiteDef>, env: Env, key: string)
    requires WellFormed(sites) && key in Keys(sites)
    ensures GetSiteType(sites, EnvFor(env, key)) == key
  {
  }

  /** `getSiteUrl(config)`: the development URL in development, the public URL otherwise. */
  function GetSiteUrl(env: Env, config: SiteConfigItem): string {
    if env.dev then config.devUrl else config.def.url
  }

  /** Index of the first site declared with `key`. */
  function IndexOfKey(sites: seq<SiteDef>, key: string): (i: nat)
    requires key in Keys(sites)
    ensures i < |sites| && sites[i].key == key
    ensures forall j :: 0 <= j < i ==> sites[j].key != key
  {
    var j :| 0 <= j < |sites| && Keys(sites)[j] == key;
    KeyIndexFrom(sites, key, 0)
  }

  /** The search of `IndexOfKey` from position `from`, past keys already known to differ. */
  function KeyIndexFrom(sites: seq<SiteDef>, key: string, from: nat): (i: nat)
    requires exists j :: from <= j < |sites| && sites[j].key == key
    requires forall j :: 0 <= j < from ==> sites[j].key != key
    ensures from <= i < |sites| && sites[i].key == key
    ensures forall j :: 0 <= j < i ==> sites[j].key != key
    decreases |sites| - from
  {
    if sites[from].key == key then from
    else KeyIndexFrom(sites, key, from + 1)
  }


  /** `getCurrentConfig()`: `SITE_CONFIG[getSiteType()]`. */
  function GetCurrentConfig(sites: seq<SiteDef>, env: Env): (r: SiteConfigItem)
    requires WellFormed(sites)
    ensures r in SiteConfigTable(sites)
    ensures r.def.key == GetSiteType(sites, env)
  {
    SiteConfigTable(sites)[IndexOfKey(sites, GetSiteType(sites, env))]
  }

  /** The two front-matter fields routing looks at. */
  datatype PostKey = PostKey(ageRestricted: bool, category: string)

  /** `matchesSiteCondition(post, config)` */
  function MatchesSiteCondition(post: PostKey, config: SiteConfigItem): (r: bool)
    ensures r <==> && (config.def.categories.None? || post.category in config.def.categories.value)
                   && (config.def.ageRestricted.None? || config.def.ageRestricted.value == post.ageRestricted)
  {
    if config.def.categories.Some? && post.category !in config.def.categories.value then false
    else if config.def.ageRestricted.Some? && post.ageRestricted != config.def.ageRestricted.value then false
    else true
  }

  /** A site other than `all` whose condition the post matches. */
  predicate SubSiteMatches(post: PostKey, config: SiteConfigItem) {
    config.def.key != ALL_KEY && MatchesSiteCondition(post, config)
  }

  /** The loop over `Object.entries(SITE_CONFIG)` that skips `all`: the index of the first
      sub-site at or after `from` whose condition the post matches. */
  function FirstSubSiteMatch(items: seq<SiteConfigItem>, post: PostKey, from: nat): (r: Option<nat>)
    decreases |items| - from
    ensures r.Some? ==> from <= r.value < |items| && SubSiteMatches(post, items[r.value])
    ensures r.Some? ==> forall j :: from <= j < r.value ==> !SubSiteMatches(post, items[j])
    ensures r.None? ==> forall j :: from <= j < |items| ==> !SubSiteMatches(post, items[j])
  {
    if from >= |items| then None
    else if items[from].def.key == ALL_KEY then FirstSubSiteMatch(items, post, from + 1)
    else if MatchesSiteCondition(post, items[from]) then Some(from)
    else FirstSubSiteMatch(items, post, from + 1)
  }

  /** `shouldGeneratePostDetail(post)` and `shouldGenerateScrapDetail(scrap)`, which are the
      same test: on a sub-site, the post must match that site's condition; on `all`, it must
      match no sub-site. */
  function ShouldGenerateDetail(sites: seq<SiteDef>, env: Env, post: PostKey): (r: bool)
    requires WellFormed(sites)
    ensures GetSiteType(sites, env) != ALL_KEY ==>
              (r <==> MatchesSiteCondition(post, GetCurrentConfig(sites, env)))
    ensures GetSiteType(sites, env) == ALL_KEY ==>
              (r <==> forall i :: 0 <= i < |sites| ==> !SubSiteMatches(post, SiteConfigTable(sites)[i]))
  {
    if GetSiteType(sites, env) == ALL_KEY then
      FirstSubSiteMatch(SiteConfigTable(sites), post, 0).None?
    else
      MatchesSiteCondition(post, GetCurrentConfig(sites, env))
  }

  /** The site whose build renders the post's detail page: the first matching sub-site in
      declaration order, else `all`. */
  function HomeSite(sites: seq<SiteDef>, post: PostKey): (r: SiteConfigItem)
    requires WellFormed(sites)
    ensures r in SiteConfigTable(sites)
    ensures r.def.key != ALL_KEY ==> MatchesSiteCondition(post, r)
    ensures r.def.key == ALL_KEY <==>
              forall i :: 0 <= i < |sites| ==> !SubSiteMatches(post, SiteConfigTable(sites)[i])
    ensures r.def.key != ALL_KEY ==>
              exists i :: 0 <= i < |sites| && SiteConfigTable(sites)[i] == r
                          && forall j :: 0 <= j < i ==> !SubSiteMatches(post, SiteConfigTable(sites)[j])
  {
    var table := SiteConfigTable(sites);
    match FirstSubSiteMatch(table, post, 0)
    case Some(i) => table[i]
    case None => table[IndexOfKey(sites, ALL_KEY)]
  }

  /** Posts live under `/posts/`, scraps under `/scraps/`. */
  datatype Kind = PostKind | ScrapKind

  function Segment(kind: Kind): string {
    match kind
    case PostKind => "posts"
    case ScrapKind => "scraps"
  }

  /** `<base>/posts/<slug>/` or `<base>/scraps/<slug>/`; a relative path when `base` is empty. */
  function PagePath(base: string, kind: Kind, slug: string): string {
    base + "/" + Segment(kind) + "/" + slug + "/"
  }

  /** `getPostDetailUrl(slug, post)` and `getScrapDetailUrl(slug, scrap)`: the absolute URL on
      the site that renders the detail page. */
  function GetDetailUrl(sites: seq<SiteDef>, env: Env, kind: Kind, slug: string, post: PostKey): (r: string)
    requires WellFormed(sites)
    ensures exists i :: 0 <= i < |sites|
              && ShouldGenerateDetail(sites, EnvFor(env, sites[i].key), post)
              && r == PagePath(GetSiteUrl(env, SiteConfigTable(sites)[i]), kind, slug)
    ensures r == PagePath(GetSiteUrl(env, HomeSite(sites, post)), kind, slug)
  {
    var home := HomeSite(sites, post);
    HomeSiteGeneratesDetail(sites, env, post);
    var i :| 0 <= i < |sites| && SiteConfigTable(sites)[i] == home;
    PagePath(GetSiteUrl(env, home), kind, slug)
  }

  /** The build of the site `HomeSite` picks renders the detail page. */
  lemma HomeSiteGeneratesDetail(sites: seq<SiteDef>, env: Env, post: PostKey)
    requires WellFormed(sites)
    ensures ShouldGenerateDetail(sites, EnvFor(env, HomeSite(sites, post).def.key), post)
  {
    var home := HomeSite(sites, post);
    var e := EnvFor(env, home.def.key);
    assert home.def.key in Keys(sites);
    SiteTypeOfEnvFor(sites, env, home.def.key);
    if home.def.key != ALL_KEY {
      KeyDeterminesConfig(sites, e, home);
    }
  }

  /** In a table with distinct keys, the current config is the table entry with the built key. */
  lemma KeyDeterminesConfig(sites: seq<SiteDef>, env: Env, item: SiteConfigItem)
    requires WellFormed(sites) && item in SiteConfigTable(sites)
    requires item.def.key == GetSiteType(sites, env)
    ensures GetCurrentConfig(sites, env) == item
  {
    var table := SiteConfigTable(sites);
    var i :| 0 <= i < |table| && table[i] == item;
    var j := IndexOfKey(sites, GetSiteType(sites, env));
    assert sites[i].key == sites[j].key;
  }

  /** The partition of detail pages: every post is rendered by the build of at least one
      declared site, and never by both `all` and a sub-site. */
  lemma {:induction false} DetailPagePartition(sites: seq<SiteDef>, env: Env, post: PostKey)
    requires WellFormed(sites)
    ensures exists k :: k in Keys(sites) && ShouldGenerateDetail(sites, EnvFor(env, k), post)
    ensures forall k :: k in Keys(sites) && k != ALL_KEY ==>
              !(ShouldGenerateDetail(sites, EnvFor(env, ALL_KEY), post)
                && ShouldGenerateDetail(sites, EnvFor(env, k), post))
  {
    HomeSiteGeneratesDetail(sites, env, post);
    assert HomeSite(sites, post).def.key in Keys(sites);
    forall k | k in Keys(sites) && k != ALL_KEY
      ensures !(ShouldGenerateDetail(sites, EnvFor(env, ALL_KEY), post)
                && ShouldGenerateDetail(sites, EnvFor(env, k), post))
    {
      AllAndSubSiteExclusive(sites, env, post, k);
    }
  }

  /** The `all` build and the build of sub-site `k` never both render a post. */
  lemma AllAndSubSiteExclusive(sites: seq<SiteDef>, env: Env, post: PostKey, k: string)
    requires WellFormed(sites) && k in Keys(sites) && k != ALL_KEY
    ensures !(ShouldGenerateDetail(sites, EnvFor(env, ALL_KEY), post)
              && ShouldGenerateDetail(sites, EnvFor(env, k), post))
  {
    SiteTypeOfEnvFor(sites, env, k);
    SiteTypeOfEnvFor(sites, env, ALL_KEY);
    var cur := GetCurrentConfig(sites, EnvFor(env, k));
    var table := SiteConfigTable(sites);
    var i :| 0 <= i < |table| && table[i] == cur;
    assert cur.def.key == k;
  }

  /** `getAdultSiteConfig()`: the first site with `ageRestricted === true`. */
  function GetAdultSiteConfig(sites: seq<SiteDef>): (r: Option<SiteConfigItem>)
    ensures r.Some? ==> r.value in SiteConfigTable(sites) && r.value.def.ageRestricted == Some(true)
    ensures r.Some? ==> (exists i :: 0 <= i < |sites| && SiteConfigTable(sites)[i] == r.value
                           && forall j :: 0 <= j < i ==> sites[j].ageRestricted != Some(true))
    ensures r.None? <==> forall i :: 0 <= i < |sites| ==> sites[i].ageRestricted != Some(true)
  {
    match FirstAdult(sites, 0)
    case None => None
    case Some(i) => Some(SiteConfigTable(sites)[i])
  }

  function FirstAdult(sites: seq<SiteDef>, from: nat): (r: Option<nat>)
    decreases |sites| - from
    ensures r.Some? ==> from <= r.value < |sites| && sites[r.value].ageRestricted == Some(true)
    ensures r.Some? ==> forall j :: from <= j < r.value ==> sites[j].ageRestricted != Some(true)
    ensures r.None? <==> forall i :: from <= i < |sites| ==> sites[i].ageRestricted != Some(true)
  {
    if from >= |sites| then None
    else if sites[from].ageRestricted == Some(true) then Some(from)
    else FirstAdult(sites, from + 1)
  }

  /** `getPostUrl(slug, isAgeRestricted)`: an absolute URL on the age-restricted site for an
      age-restricted article listed on `all`, otherwise the path on the current site. */
  function GetPostUrl(sites: seq<SiteDef>, env: Env, slug: string, isAgeRestricted: bool): (r: string)
    ensures GetSiteType(sites, env) == ALL_KEY && isAgeRestricted && GetAdultSiteConfig(sites).Some? ==>
              r == PagePath(GetSiteUrl(env, GetAdultSiteConfig(sites).value), PostKind, slug)
    ensures !(GetSiteType(sites, env) == ALL_KEY && isAgeRestricted && GetAdultSiteConfig(sites).Some?) ==>
              r == PagePath("", PostKind, slug)
  {
    if GetSiteType(sites, env) == ALL_KEY && isAgeRestricted then
      match GetAdultSiteConfig(sites)
      case Some(adult) => PagePath(GetSiteUrl(env, adult), PostKind, slug)
      case None => PagePath("", PostKind, slug)
    else PagePath("", PostKind, slug)
  }

  /** `getCanonicalUrl(pathname, isAgeRestricted)`: no canonical link on `all` or for an
      age-restricted article on an age-restricted site; the main site's URL otherwise. */
  function GetCanonicalUrl(sites: seq<SiteDef>, env: Env, pathname: string, isAgeRestricted: Option<bool>): (r: Option<string>)
    requires WellFormed(sites)
    ensures GetSiteType(sites, env) == ALL_KEY ==> r.None?
    ensures GetCurrentConfig(sites, env).def.ageRestricted == Some(true) && isAgeRestricted == Some(true) ==> r.None?
    ensures r.None? || r == Some(AllSite(sites).url + pathname)
    ensures GetSiteType(sites, env) != ALL_KEY
            && !(GetCurrentConfig(sites, env).def.ageRestricted == Some(true) && isAgeRestricted == Some(true))
            ==> r == Some(AllSite(sites).url + pathname)
  {
    var siteType := GetSiteType(sites, env);
    var current := GetCurrentConfig(sites, env);
    if siteType != ALL_KEY && current.def.ageRestricted == Some(true) && isAgeRestricted == Some(true) then None
    else if siteType == ALL_KEY then None
    else Some(AllSite(sites).url + pathname)
  }

  /** `shouldGenerateListingPages()`: only the `all` build renders listings. */
  function ShouldGenerateListingPages(sites: seq<SiteDef>, env: Env): (r: bool)
    ensures r <==> GetSiteType(sites, env) == ALL_KEY
  {
    GetSiteType(sites, env) == ALL_KEY
  }

  // ---------------------------------------------------------------------------
  // The concrete table

  function DiaryItem(): SiteConfigItem { SiteConfigTable(SITES)[0] }
  function HogeItem(): SiteConfigItem { SiteConfigTable(SITES)[1] }

  /** `diary` admits exactly the non-age-restricted posts of category 日記, and `hoge` admits
      exactly the age-restricted ones, so no post matches both. */
  lemma SubSiteConditions(post: PostKey)
    ensures DiaryItem().def == DIARY && HogeItem().def == HOGE
    ensures MatchesSiteCondition(post, DiaryItem()) <==> post.category == "日記" && !post.ageRestricted
    ensures MatchesSiteCondition(post, HogeItem()) <==> post.ageRestricted
    ensures !(MatchesSiteCondition(post, DiaryItem()) && MatchesSiteCondition(post, HogeItem()))
  {
  }

  /** The site that renders a post under the concrete table. */
  function ExpectedSite(post: PostKey): string {
    if post.ageRestricted then "hoge"
    else if post.category == "日記" then "diary"
    else ALL_KEY
  }

  /** With the concrete table, each post is rendered by exactly one build, and its detail URL
      is on that site. */
  lemma {:induction false} ExactlyOneSiteRendersEachPost(env: Env, post: PostKey, k: string)
    requires k in Keys(SITES)
    ensures WellFormed(SITES)
    ensures ShouldGenerateDetail(SITES, EnvFor(env, k), post) <==> k == ExpectedSite(post)
    ensures HomeSite(SITES, post).def.key == ExpectedSite(post)
  {
    SitesWellFormed();
    var table := SiteConfigTable(SITES);
    SubSiteConditions(post);
    HomeSiteIsExpected(post);
    OneOfThree(k, Keys(SITES));
    SiteTypeOfEnvFor(SITES, env, k);
    var e := EnvFor(env, k);
    if k == "diary" {
      KeyDeterminesConfig(SITES, e, table[0]);
    } else if k == "hoge" {
      KeyDeterminesConfig(SITES, e, table[1]);
    } else {
      assert table[0].def == DIARY && table[1].def == HOGE && table[2].def == ALL;
      assert ShouldGenerateDetail(SITES, e, post) <==>
             !SubSiteMatches(post, table[0]) && !SubSiteMatches(post, table[1]);
    }
  }

  lemma HomeSiteIsExpected(post: PostKey)
    ensures WellFormed(SITES)
    ensures HomeSite(SITES, post).def.key == ExpectedSite(post)
  {
    SitesWellFormed();
    var table := SiteConfigTable(SITES);
    SubSiteConditions(post);
    var home := HomeSite(SITES, post);
    OneOfThree(home, table);
    if home == table[0] {
      assert home.def == DIARY && MatchesSiteCondition(post, DiaryItem());
    } else if home == table[1] {
      assert home.def == HOGE && MatchesSiteCondition(post, HogeItem());
    } else {
      assert home.def == ALL;
      assert !SubSiteMatches(post, table[0]) && !SubSiteMatches(post, table[1]);
    }
  }

  lemma OneOfThree<T>(x: T, s: seq<T>)
    requires |s| == 3 && x in s
    ensures x == s[0] || x == s[1] || x == s[2]
  {
    var i :| 0 <= i < 3 && s[i] == x;
  }

  /** With the concrete table, `hoge` is the home of every age-restricted post. */
  lemma HomeOfAgeRestricted(category: string)
    ensures WellFormed(SITES)
    ensures HomeSite(SITES, PostKey(true, category)) == SiteConfigTable(SITES)[1]
  {
    var post := PostKey(true, category);
    var table := SiteConfigTable(SITES);
    HomeSiteIsExpected(post);
    var home := HomeSite(SITES, post);
    OneOfThree(home, table);
    assert table[0].def == DIARY && table[2].def == ALL;
  }

  /** With the concrete table, the `all` build links an age-restricted article to the page the
      `hoge` build renders for it. */
  lemma AgeRestrictedLinkFromAllReachesDetailPage(env: Env, slug: string, category: string)
    requires GetSiteType(SITES, env) == ALL_KEY
    ensures WellFormed(SITES)
    ensures GetPostUrl(SITES, env, slug, true) == GetDetailUrl(SITES, env, PostKind, slug, PostKey(true, category))
  {
    HomeOfAgeRestricted(category);
    var table := SiteConfigTable(SITES);
    assert GetAdultSiteConfig(SITES) == Some(table[1]) by {
      assert FirstAdult(SITES, 0) == FirstAdult(SITES, 1);
    }
  }

  /** With the concrete table, pages of `diary` name the main site as canonical, and detail pages
      of `hoge` (all age-restricted) carry no canonical link. */
  lemma CanonicalUrlsOfSubSites(env: Env, pathname: string, post: PostKey)
    ensures WellFormed(SITES)
    ensures GetCanonicalUrl(SITES, EnvFor(env, "diary"), pathname, Some(post.ageRestricted))
              == Some(CANONICAL_SITE_URL + pathname)
    ensures ShouldGenerateDetail(SITES, EnvFor(env, "hoge"), post) ==>
              GetCanonicalUrl(SITES, EnvFor(env, "hoge"), pathname, Some(post.ageRestricted)).None?
  {
    SitesWellFormed();
    AllSiteIsUnfiltered();
    var table := SiteConfigTable(SITES);
    assert Keys(SITES) == ["diary", "hoge", "all"];
    SiteTypeOfEnvFor(SITES, env, "diary");
    SiteTypeOfEnvFor(SITES, env, "hoge");
    KeyDeterminesConfig(SITES, EnvFor(env, "diary"), table[0]);
    KeyDeterminesConfig(SITES, EnvFor(env, "hoge"), table[1]);
    SubSiteConditions(post);
  }
}
