/** `src/utils/contentDetector.ts`: whether the repository has real content, and the
    placeholder samples shown when it has none. Collections are passed in as sequences. */
module ContentDetector {
  import opened Strings
  import opened ContentSchema

  /** A collection entry: its file id (path below the collection directory), its slug and
      its parsed front-matter. */
  datatype Entry = Entry(id: string, slug: string, data: EntryData)

  /** The module-level memo `cachedHasRealContent`. */
  datatype Cache = Cache(value: Option<bool>)

  /** Is there any real blog post or scrap, drafts included? */
  predicate RealContentExists(blog: seq<Entry>, scraps: seq<Entry>) {
    |blog| > 0 || |scraps| > 0
  }

  /** `hasRealContent()`: computed from the complete collections on the first call and
      remembered; later calls return the remembered value. */
  function HasRealContent(cache: Cache, blog: seq<Entry>, scraps: seq<Entry>): (r: (bool, Cache))
    ensures cache.value.None? ==> (r.0 <==> |blog| > 0 || |scraps| > 0)
    ensures cache.value.None? ==> r.1 == Cache(Some(r.0))
    ensures cache.value.Some? ==> r.0 == cache.value.value && r.1 == cache
  {
    match cache.value
    case Some(v) => (v, cache)
    case None =>
      var v := RealContentExists(blog, scraps);
      (v, Cache(Some(v)))
  }

  /** Once computed, the answer no longer depends on the collections passed later. */
  lemma HasRealContentIsMemoised(blog: seq<Entry>, scraps: seq<Entry>, blog2: seq<Entry>, scraps2: seq<Entry>)
    ensures var (first, cache) := HasRealContent(Cache(None), blog, scraps);
            var (second, cache2) := HasRealContent(cache, blog2, scraps2);
            second == first && cache2 == cache && (first <==> RealContentExists(blog, scraps))
  {
  }

  const BLOG_PREFIX: string := "blog/"
  const SCRAPS_PREFIX: string := "scraps/"

  /** `{...entry, slug: slug.replace(/^p/, ''), id: id.replace(/^p/, '')}` */
  function StripSample(e: Entry, prefix: string): Entry {
    e.(id := StripPrefix(e.id, prefix), slug := StripPrefix(e.slug, prefix))
  }

  /** Number of samples whose id starts with `prefix`. */
  function CountUnder(samples: seq<Entry>, prefix: string): nat {
    if |samples| == 0 then 0
    else (if StartsWith(samples[0].id, prefix) then 1 else 0) + CountUnder(samples[1..], prefix)
  }

  /** The samples whose id starts with `prefix`, in order, with the prefix stripped from id
      and slug and every other field unchanged. */
  function SamplesUnder(samples: seq<Entry>, prefix: string): (r: seq<Entry>)
    ensures |r| == CountUnder(samples, prefix)
    ensures forall e :: e in r <==> exists s :: s in samples && StartsWith(s.id, prefix) && e == StripSample(s, prefix)
    ensures forall e :: e in r ==> exists s :: s in samples && s.id == prefix + e.id && s.data == e.data
  {
    if |samples| == 0 then []
    else
      var rest := SamplesUnder(samples[1..], prefix);
      assert forall s :: s in samples <==> s == samples[0] || s in samples[1..];
      if StartsWith(samples[0].id, prefix) then [StripSample(samples[0], prefix)] + rest
      else rest
  }

  /** Selection keeps the order of the collection: it distributes over concatenation. */
  lemma {:induction false} SamplesUnderConcat(a: seq<Entry>, b: seq<Entry>, prefix: string)
    ensures SamplesUnder(a + b, prefix) == SamplesUnder(a, prefix) + SamplesUnder(b, prefix)
    decreases |a|
  {
    if |a| == 0 {
      assert a + b == b;
    } else {
      assert (a + b)[1..] == a[1..] + b;
      SamplesUnderConcat(a[1..], b, prefix);
    }
  }

  /** `getSamplePosts()` */
  function GetSamplePosts(samples: seq<Entry>): (r: seq<Entry>)
    ensures forall e :: e in r <==> exists s :: s in samples && StartsWith(s.id, BLOG_PREFIX) && e == StripSample(s, BLOG_PREFIX)
  {
    SamplesUnder(samples, BLOG_PREFIX)
  }

  /** `getSampleScraps()` */
  function GetSampleScraps(samples: seq<Entry>): (r: seq<Entry>)
    ensures forall e :: e in r <==> exists s :: s in samples && StartsWith(s.id, SCRAPS_PREFIX) && e == StripSample(s, SCRAPS_PREFIX)
  {
    SamplesUnder(samples, SCRAPS_PREFIX)
  }

  /** No sample is selected as both a post and a scrap, so the two selections together never
      exceed the sample collection. */
  lemma {:induction false} SampleKindsDisjoint(samples: seq<Entry>)
    ensures forall s :: s in samples ==> !(StartsWith(s.id, BLOG_PREFIX) && StartsWith(s.id, SCRAPS_PREFIX))
    ensures |GetSamplePosts(samples)| + |GetSampleScraps(samples)| <= |samples|
    decreases |samples|
  {
    if |samples| > 0 {
      SampleKindsDisjoint(samples[1..]);
      var s := samples[0];
      if StartsWith(s.id, BLOG_PREFIX) {
        assert s.id[0] == BLOG_PREFIX[0] != SCRAPS_PREFIX[0];
      }
    }
  }
}
