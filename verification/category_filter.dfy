/** `src/utils/categoryFilter.ts`: the collections each build lists and renders, after the
    draft filter, the site's category and age filter, and the fallback to samples. */
module CategoryFilter {
  import opened Strings
  import opened Sites
  import opened SiteConfig
  import opened ContentDetector
  import opened Seqs

  /** The routing fields of an entry. */
  function KeyOf(e: Entry): PostKey {
    PostKey(e.data.ageRestricted, e.data.category)
  }

  function PublishedAt(e: Entry): int {
    e.data.publishedAt
  }

  /** `isPostIncluded(post)` and `isScrapIncluded(scrap)`, which are the same test: the
      current site's category list, when it has one, holds the entry's category, and the
      current site's age flag, when it has one, equals the entry's. */
  function IsIncluded(sites: seq<SiteDef>, env: Env, e: Entry): (r: bool)
    requires WellFormed(sites)
    ensures r <==> MatchesSiteCondition(KeyOf(e), GetCurrentConfig(sites, env))
  {
    var current := GetCurrentConfig(sites, env).def;
    if current.categories.Some? && e.data.category !in current.categories.value then false
    else if current.ageRestricted.Some? && e.data.ageRestricted != current.ageRestricted.value then false
    else true
  }

  /** The draft filter: `!(!shouldShowDrafts() && entry.data.draft)`. */
  predicate Visible(env: Env, e: Entry) {
    ShouldShowDrafts(env) || !e.data.draft
  }

  /** The three filters the getters apply after the draft filter. */
  datatype Purpose =
    | Everything  // getAllPosts
    | Listing     // getFilteredPosts, getFilteredScraps
    | Detail      // getPostsForDetailPages, getScrapsForDetailPages

  predicate Admits(sites: seq<SiteDef>, env: Env, purpose: Purpose, e: Entry)
    requires WellFormed(sites)
  {
    && Visible(env, e)
    && match purpose
       case Everything => true
       case Listing => IsIncluded(sites, env, e)
       case Detail => ShouldGenerateDetail(sites, env, KeyOf(e))
  }

  /** The entries of `xs` a filter admits, in order. */
  function Select(sites: seq<SiteDef>, env: Env, purpose: Purpose, xs: seq<Entry>): (r: seq<Entry>)
    requires WellFormed(sites)
    ensures |r| <= |xs|
    ensures multiset(r) <= multiset(xs)
    ensures forall e :: e in r <==> e in xs && Admits(sites, env, purpose, e)
  {
    if |xs| == 0 then []
    else
      assert xs == [xs[0]] + xs[1..];
      var rest := Select(sites, env, purpose, xs[1..]);
      if Admits(sites, env, purpose, xs[0]) then [xs[0]] + rest else rest
  }

  /** Selection keeps the listing order: it distributes over concatenation. */
  lemma {:induction false} SelectConcat(sites: seq<SiteDef>, env: Env, purpose: Purpose, xs: seq<Entry>, ys: seq<Entry>)
    requires WellFormed(sites)
    ensures Select(sites, env, purpose, xs + ys) == Select(sites, env, purpose, xs) + Select(sites, env, purpose, ys)
    decreases |xs|
  {
    if |xs| == 0 {
      assert xs + ys == ys;
    } else {
      var x, zs := xs[0], xs + ys;
      assert zs[0] == x && zs[1..] == xs[1..] + ys;
      SelectConcat(sites, env, purpose, xs[1..], ys);
      var a, b := Select(sites, env, purpose, xs[1..]), Select(sites, env, purpose, ys);
      if Admits(sites, env, purpose, x) {
        assert Select(sites, env, purpose, xs) == [x] + a;
        assert Select(sites, env, purpose, zs) == [x] + (a + b);
        ConsAppend(x, a, b);
      } else {
        assert Select(sites, env, purpose, xs) == a;
        assert Select(sites, env, purpose, zs) == a + b;
      }
    }
  }

  /** A single entry is kept exactly when the filter admits it. */
  lemma SelectOne(sites: seq<SiteDef>, env: Env, purpose: Purpose, e: Entry)
    requires WellFormed(sites)
    ensures Select(sites, env, purpose, [e]) == (if Admits(sites, env, purpose, e) then [e] else [])
  {
    assert [e][1..] == [];
  }

  lemma ConsAppend<T>(x: T, a: seq<T>, b: seq<T>)
    ensures [x] + (a + b) == ([x] + a) + b
  {
  }

  /** A weaker filter keeps at least the entries a stronger one keeps. */
  lemma {:induction false} SelectMonotone(sites: seq<SiteDef>, env: Env, strong: Purpose, weak: Purpose, xs: seq<Entry>)
    requires WellFormed(sites)
    requires forall e :: e in xs && Admits(sites, env, strong, e) ==> Admits(sites, env, weak, e)
    ensures multiset(Select(sites, env, strong, xs)) <= multiset(Select(sites, env, weak, xs))
    decreases |xs|
  {
    if |xs| > 0 {
      SelectMonotone(sites, env, strong, weak, xs[1..]);
    }
  }

  /** Two filters that agree on every entry select the same sequence. */
  lemma {:induction false} SelectAgree(sites: seq<SiteDef>, env: Env, env2: Env, p: Purpose, q: Purpose, xs: seq<Entry>)
    requires WellFormed(sites)
    requires forall e :: e in xs ==> (Admits(sites, env, p, e) <==> Admits(sites, env2, q, e))
    ensures Select(sites, env, p, xs) == Select(sites, env2, q, xs)
    decreases |xs|
  {
    if |xs| > 0 {
      SelectAgree(sites, env, env2, p, q, xs[1..]);
    }
  }

  /** The three collections: real posts, real scraps and the samples. */
  datatype Content = Content(blog: seq<Entry>, scraps: seq<Entry>, samples: seq<Entry>)

  /** The posts the getters filter: the blog collection when there is real content, the
      sample posts otherwise. */
  function PostSource(c: Content): (r: seq<Entry>)
    ensures RealContentExists(c.blog, c.scraps) ==> r == c.blog
    ensures !RealContentExists(c.blog, c.scraps) ==> r == GetSamplePosts(c.samples)
  {
    if RealContentExists(c.blog, c.scraps) then c.blog else GetSamplePosts(c.samples)
  }

  /** The scraps the getters filter, likewise. */
  function ScrapSource(c: Content): (r: seq<Entry>)
    ensures RealContentExists(c.blog, c.scraps) ==> r == c.scraps
    ensures !RealContentExists(c.blog, c.scraps) ==> r == GetSampleScraps(c.samples)
  {
    if RealContentExists(c.blog, c.scraps) then c.scraps else GetSampleScraps(c.samples)
  }

  /** `getFilteredPosts()` */
  function GetFilteredPosts(sites: seq<SiteDef>, env: Env, c: Content): (r: seq<Entry>)
    requires WellFormed(sites)
    ensures RealContentExists(c.blog, c.scraps) ==>
              forall e :: e in r <==> e in c.blog && Visible(env, e) && IsIncluded(sites, env, e)
    ensures !RealContentExists(c.blog, c.scraps) ==>
              forall e :: e in r <==> && (exists s :: s in c.samples && StartsWith(s.id, BLOG_PREFIX) && e == StripSample(s, BLOG_PREFIX))
                                      && Visible(env, e) && IsIncluded(sites, env, e)
  {
    Select(sites, env, Listing, PostSource(c))
  }

  /** `getAllPosts()`: the draft filter only. */
  function GetAllPosts(sites: seq<SiteDef>, env: Env, c: Content): (r: seq<Entry>)
    requires WellFormed(sites)
    ensures RealContentExists(c.blog, c.scraps) ==>
              forall e :: e in r <==> e in c.blog && Visible(env, e)
    ensures !RealContentExists(c.blog, c.scraps) ==>
              forall e :: e in r <==> && (exists s :: s in c.samples && StartsWith(s.id, BLOG_PREFIX) && e == StripSample(s, BLOG_PREFIX))
                                      && Visible(env, e)
  {
    Select(sites, env, Everything, PostSource(c))
  }

  /** `getPostsForDetailPages()` */
  function GetPostsForDetailPages(sites: seq<SiteDef>, env: Env, c: Content): (r: seq<Entry>)
    requires WellFormed(sites)
    ensures forall e :: e in r <==> e in PostSource(c) && Visible(env, e) && ShouldGenerateDetail(sites, env, KeyOf(e))
  {
    Select(sites, env, Detail, PostSource(c))
  }

  /** `getFilteredScraps()` */
  function GetFilteredScraps(sites: seq<SiteDef>, env: Env, c: Content): (r: seq<Entry>)
    requires WellFormed(sites)
    ensures RealContentExists(c.blog, c.scraps) ==>
              forall e :: e in r <==> e in c.scraps && Visible(env, e) && IsIncluded(sites, env, e)
    ensures !RealContentExists(c.blog, c.scraps) ==>
              forall e :: e in r <==> && (exists s :: s in c.samples && StartsWith(s.id, SCRAPS_PREFIX) && e == StripSample(s, SCRAPS_PREFIX))
                                      && Visible(env, e) && IsIncluded(sites, env, e)
  {
    Select(sites, env, Listing, ScrapSource(c))
  }

  /** `getScrapsForDetailPages()` */
  function GetScrapsForDetailPages(sites: seq<SiteDef>, env: Env, c: Content): (r: seq<Entry>)
    requires WellFormed(sites)
    ensures forall e :: e in r <==> e in ScrapSource(c) && Visible(env, e) && ShouldGenerateDetail(sites, env, KeyOf(e))
  {
    Select(sites, env, Detail, ScrapSource(c))
  }

  /** `getSortedFilteredPosts()`: newest first, ties in collection order. */
  function GetSortedFilteredPosts(sites: seq<SiteDef>, env: Env, c: Content): (r: seq<Entry>)
    requires WellFormed(sites)
    ensures NonIncreasing(r, PublishedAt)
    ensures multiset(r) == multiset(GetFilteredPosts(sites, env, c))
  {
    SortDesc(GetFilteredPosts(sites, env, c), PublishedAt)
  }

  /** `getSortedFilteredScraps()` */
  function GetSortedFilteredScraps(sites: seq<SiteDef>, env: Env, c: Content): (r: seq<Entry>)
    requires WellFormed(sites)
    ensures NonIncreasing(r, PublishedAt)
    ensures multiset(r) == multiset(GetFilteredScraps(sites, env, c))
  {
    SortDesc(GetFilteredScraps(sites, env, c), PublishedAt)
  }

  /** `UnifiedPost` */
  datatype Unified = BlogPost(entry: Entry) | ScrapPost(entry: Entry)

  function UnifiedDate(u: Unified): int {
    u.entry.data.publishedAt
  }

  function AsBlogPosts(xs: seq<Entry>): (r: seq<Unified>)
    ensures |r| == |xs| && forall i :: 0 <= i < |xs| ==> r[i] == BlogPost(xs[i])
  {
    seq(|xs|, i requires 0 <= i < |xs| => BlogPost(xs[i]))
  }

  function AsScrapPosts(xs: seq<Entry>): (r: seq<Unified>)
    ensures |r| == |xs| && forall i :: 0 <= i < |xs| ==> r[i] == ScrapPost(xs[i])
  {
    seq(|xs|, i requires 0 <= i < |xs| => ScrapPost(xs[i]))
  }

  /** Tagging keeps the posts and the scraps apart. */
  lemma TaggedMembers(posts: seq<Entry>, scraps: seq<Entry>)
    ensures forall e :: BlogPost(e) in AsBlogPosts(posts) + AsScrapPosts(scraps) <==> e in posts
    ensures forall e :: ScrapPost(e) in AsBlogPosts(posts) + AsScrapPosts(scraps) <==> e in scraps
  {
    var unified := AsBlogPosts(posts) + AsScrapPosts(scraps);
    forall e ensures BlogPost(e) in unified <==> e in posts {
      if e in posts {
        var i :| 0 <= i < |posts| && posts[i] == e;
        assert unified[i] == BlogPost(e);
      }
    }
    forall e ensures ScrapPost(e) in unified <==> e in scraps {
      if e in scraps {
        var i :| 0 <= i < |scraps| && scraps[i] == e;
        assert unified[|posts| + i] == ScrapPost(e);
      }
    }
  }

  /** `getSortedFilteredUnifiedPosts()`: the filtered posts and the filtered scraps, tagged,
      in one list sorted newest first. */
  function GetSortedFilteredUnifiedPosts(sites: seq<SiteDef>, env: Env, c: Content): (r: seq<Unified>)
    requires WellFormed(sites)
    ensures NonIncreasing(r, UnifiedDate)
    ensures |r| == |GetFilteredPosts(sites, env, c)| + |GetFilteredScraps(sites, env, c)|
    ensures forall e :: BlogPost(e) in r <==> e in GetFilteredPosts(sites, env, c)
    ensures forall e :: ScrapPost(e) in r <==> e in GetFilteredScraps(sites, env, c)
    ensures multiset(r) == multiset(AsBlogPosts(GetFilteredPosts(sites, env, c))
                                    + AsScrapPosts(GetFilteredScraps(sites, env, c)))
  {
    var posts := GetFilteredPosts(sites, env, c);
    var scraps := GetFilteredScraps(sites, env, c);
    var unified := AsBlogPosts(posts) + AsScrapPosts(scraps);
    var r := SortDesc(unified, UnifiedDate);
    TaggedMembers(posts, scraps);
    assert forall u :: u in r <==> u in multiset(r);
    assert forall u :: u in unified <==> u in multiset(unified);
    r
  }

  /** The listing of a build is the everything-listing narrowed by the site's filter. */
  lemma ListingWithinAllPosts(sites: seq<SiteDef>, env: Env, c: Content)
    requires WellFormed(sites)
    ensures multiset(GetFilteredPosts(sites, env, c)) <= multiset(GetAllPosts(sites, env, c))
  {
    SelectMonotone(sites, env, Listing, Everything, PostSource(c));
  }

  /** On a sub-site build, the detail pages are exactly the listed entries. */
  lemma SubSiteDetailIsListing(sites: seq<SiteDef>, env: Env, c: Content)
    requires WellFormed(sites) && GetSiteType(sites, env) != ALL_KEY
    ensures GetPostsForDetailPages(sites, env, c) == GetFilteredPosts(sites, env, c)
    ensures GetScrapsForDetailPages(sites, env, c) == GetFilteredScraps(sites, env, c)
  {
    SelectAgree(sites, env, env, Detail, Listing, PostSource(c));
    SelectAgree(sites, env, env, Detail, Listing, ScrapSource(c));
  }

  /** With the concrete table, the `all` build lists every visible post. */
  lemma AllBuildListsEverything(env: Env, c: Content)
    requires GetSiteType(SITES, env) == ALL_KEY
    ensures WellFormed(SITES)
    ensures GetFilteredPosts(SITES, env, c) == GetAllPosts(SITES, env, c)
  {
    SitesWellFormed();
    AllSiteIsUnfiltered();
    assert GetCurrentConfig(SITES, env).def == ALL by {
      var table := SiteConfigTable(SITES);
      OneOfThree(GetCurrentConfig(SITES, env), table);
      assert table[0].def == DIARY && table[1].def == HOGE && table[2].def == ALL;
    }
    SelectAgree(SITES, env, env, Listing, Everything, PostSource(c));
  }

  /** With the concrete table, each visible post gets its detail page from exactly one build,
      the one `ExpectedSite` names. */
  lemma EachPostHasOneDetailPage(env: Env, c: Content, e: Entry, k: string)
    requires k in Keys(SITES)
    ensures WellFormed(SITES)
    ensures e in GetAllPosts(SITES, env, c) ==>
              (e in GetPostsForDetailPages(SITES, EnvFor(env, k), c) <==> k == ExpectedSite(KeyOf(e)))
  {
    SitesWellFormed();
    ExactlyOneSiteRendersEachPost(env, KeyOf(e), k);
  }
}
