/** Helpers of `src/utils/siteHelpers.ts`: development URLs, the list of site types and
    the per-category thumbnail lookup. */
module SiteHelpers {
  import opened Strings
  import opened Sites

  /** The port the development URL falls back to for a key the table does not declare. */
  const DEFAULT_DEV_PORT: nat := 4321

  const LOCALHOST: string := "http://localhost:"

  /** `getDevUrl(siteKey)` */
  function GetDevUrl(sites: seq<SiteDef>, key: string): (r: string)
    ensures key in Keys(sites) ==> r == LOCALHOST + NatToString(Lookup(sites, key).value.devPort)
    ensures key !in Keys(sites) ==> r == LOCALHOST + NatToString(DEFAULT_DEV_PORT)
  {
    match Lookup(sites, key)
    case Some(site) => LOCALHOST + NatToString(site.devPort)
    case None => LOCALHOST + NatToString(DEFAULT_DEV_PORT)
  }

  /** The decimal rendering of the three configured ports. */
  lemma PortStrings()
    ensures NatToString(4321) == "4321" && NatToString(4322) == "4322" && NatToString(4323) == "4323"
  {
    assert NatToString(4) == "4";
    assert NatToString(43) == "4" + "3";
    assert NatToString(432) == "43" + "2";
    assert NatToString(4321) == "432" + "1";
    assert NatToString(4322) == "432" + "2";
    assert NatToString(4323) == "432" + "3";
  }

  /** With the concrete table the three declared sites get three different development URLs. */
  lemma DevUrlsOfSites()
    ensures GetDevUrl(SITES, "diary") == "http://localhost:4322"
    ensures GetDevUrl(SITES, "hoge") == "http://localhost:4323"
    ensures GetDevUrl(SITES, ALL_KEY) == "http://localhost:4321"
  {
    PortStrings();
    SitesWellFormed();
    assert GetDevUrl(SITES, "diary") == "http://localhost:4322" by {
      assert Lookup(SITES, "diary") == Some(DIARY);
    }
    assert GetDevUrl(SITES, "hoge") == "http://localhost:4323" by {
      assert Lookup(SITES, "hoge") == Some(HOGE);
    }
    assert GetDevUrl(SITES, ALL_KEY) == "http://localhost:4321" by {
      assert SITES[2] == ALL;
    }
  }

  /** With the concrete table, a key it does not declare gets the `all` site's development URL. */
  lemma UnknownKeyGetsAllDevUrl(key: string)
    requires key !in Keys(SITES)
    ensures GetDevUrl(SITES, key) == GetDevUrl(SITES, ALL_KEY)
  {
    DevUrlsOfSites();
    PortStrings();
  }

  /** `getSiteTypes()`: the site keys in declaration order. */
  function GetSiteTypes(sites: seq<SiteDef>): (r: seq<string>)
    ensures |r| == |sites|
    ensures forall i :: 0 <= i < |sites| ==> r[i] == sites[i].key
    ensures WellFormed(sites) ==> ALL_KEY in r
  {
    Keys(sites)
  }

  /** One colour theme of a category thumbnail. The SVG markup is decorative and is
      represented by the name of the icon it draws. */
  datatype Theme = Theme(icon: string, bgColor: string)

  datatype CategoryThumbnail = CategoryThumbnail(light: Theme, dark: Theme)

  const DEFAULT_CATEGORY: string := "_default"

  /** `CATEGORY_THUMBNAILS` */
  const CATEGORY_THUMBNAILS: map<string, CategoryThumbnail> := map[
    "パーツ" := CategoryThumbnail(Theme("puzzle", "#c7d2fe"), Theme("puzzle", "#3730a3")),
    "日記" := CategoryThumbnail(Theme("notebook-pen", "#a7f3d0"), Theme("notebook-pen", "#065f46")),
    DEFAULT_CATEGORY := CategoryThumbnail(Theme("file-text", "#cbd5e1"), Theme("file-text", "#334155"))
  ]

  /** `getCategoryThumbnail(category)`: the configured entry, else the `_default` one. */
  function GetCategoryThumbnail(category: string): (r: CategoryThumbnail)
    ensures r in CATEGORY_THUMBNAILS.Values
    ensures category in CATEGORY_THUMBNAILS ==> r == CATEGORY_THUMBNAILS[category]
    ensures category !in CATEGORY_THUMBNAILS ==> r == CATEGORY_THUMBNAILS[DEFAULT_CATEGORY]
  {
    if category in CATEGORY_THUMBNAILS then CATEGORY_THUMBNAILS[category]
    else CATEGORY_THUMBNAILS[DEFAULT_CATEGORY]
  }
}
