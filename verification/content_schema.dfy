/** The front-matter schemas of `src/content/config.ts` for the `blog`, `scraps` and
    `_samples` collections, as a validity check that fills in defaults. Field types (a date,
    a list of strings) are taken as already checked; dates are millisecond timestamps. */
module ContentSchema {
  import opened Strings

  datatype Collection = Blog | Scraps | Samples

  /** Front-matter as written: any field may be absent. */
  datatype RawFrontmatter = RawFrontmatter(
    title: Option<string>,
    category: Option<string>,
    tags: Option<seq<string>>,
    publishedAt: Option<int>,
    updatedAt: Option<int>,
    excerpt: Option<string>,
    thumbnail: Option<string>,
    draft: Option<bool>,
    ageRestricted: Option<bool>,
    hideIntroToc: Option<bool>,
    closed: Option<bool>)

  /** Parsed front-matter. `hideIntroToc` and `closed` are `None` exactly for the collections
      whose schema does not declare them (the parser drops such keys). */
  datatype EntryData = EntryData(
    title: string,
    category: string,
    tags: seq<string>,
    publishedAt: int,
    updatedAt: int,
    excerpt: string,
    thumbnail: Option<string>,
    draft: bool,
    ageRestricted: bool,
    hideIntroToc: Option<bool>,
    closed: Option<bool>)

  /** `z.string().max(160)` on `excerpt`, a bound on JavaScript's `length` */
  const EXCERPT_MAX: nat := 160

  /** Scraps have no `hideIntroToc`. */
  predicate HasHideIntroToc(c: Collection) { c != Scraps }

  /** Blog posts have no `closed`. */
  predicate HasClosed(c: Collection) { c != Blog }

  /** The schema's checks: every required field present, at least one tag, and an excerpt
      of at most 160 UTF-16 code units. */
  predicate Valid(raw: RawFrontmatter) {
    && raw.title.Some? && raw.category.Some? && raw.tags.Some?
    && raw.publishedAt.Some? && raw.updatedAt.Some? && raw.excerpt.Some?
    && |raw.tags.value| > 0
    && Utf16Len(raw.excerpt.value) <= EXCERPT_MAX
  }

  /** `z.boolean().default(false)` */
  function DefaultFalse(b: Option<bool>): bool {
    b.GetOr(false)
  }

  /** Schema parsing of one entry of collection `c`. */
  function Parse(c: Collection, raw: RawFrontmatter): (r: Option<EntryData>)
    ensures r.Some? <==> Valid(raw)
    ensures r.Some? ==> |r.value.tags| > 0 && Utf16Len(r.value.excerpt) <= EXCERPT_MAX
    ensures r.Some? ==> && r.value.title == raw.title.value && r.value.category == raw.category.value
                        && r.value.tags == raw.tags.value && r.value.excerpt == raw.excerpt.value
                        && r.value.publishedAt == raw.publishedAt.value && r.value.updatedAt == raw.updatedAt.value
    ensures r.Some? ==> r.value.thumbnail == raw.thumbnail
    ensures r.Some? ==> (r.value.draft <==> raw.draft == Some(true))
    ensures r.Some? ==> (r.value.ageRestricted <==> raw.ageRestricted == Some(true))
    ensures r.Some? ==> (r.value.hideIntroToc.Some? <==> HasHideIntroToc(c))
    ensures r.Some? && HasHideIntroToc(c) ==> (r.value.hideIntroToc.value <==> raw.hideIntroToc == Some(true))
    ensures r.Some? ==> (r.value.closed.Some? <==> HasClosed(c))
    ensures r.Some? && HasClosed(c) ==> (r.value.closed.value <==> raw.closed == Some(true))
  {
    if !Valid(raw) then None
    else Some(EntryData(
      raw.title.value, raw.category.value, raw.tags.value,
      raw.publishedAt.value, raw.updatedAt.value, raw.excerpt.value,
      raw.thumbnail,
      DefaultFalse(raw.draft),
      DefaultFalse(raw.ageRestricted),
      if HasHideIntroToc(c) then Some(DefaultFalse(raw.hideIntroToc)) else None,
      if HasClosed(c) then Some(DefaultFalse(raw.closed)) else None))
  }

  /** Data that a parse of collection `c` can produce. */
  predicate ValidFor(c: Collection, d: EntryData) {
    && |d.tags| > 0 && Utf16Len(d.excerpt) <= EXCERPT_MAX
    && (d.hideIntroToc.Some? <==> HasHideIntroToc(c))
    && (d.closed.Some? <==> HasClosed(c))
  }

  /** Writing every field out explicitly. */
  function Unparse(d: EntryData): RawFrontmatter {
    RawFrontmatter(
      Some(d.title), Some(d.category), Some(d.tags), Some(d.publishedAt), Some(d.updatedAt),
      Some(d.excerpt), d.thumbnail, Some(d.draft), Some(d.ageRestricted), d.hideIntroToc, d.closed)
  }

  /** Parsing the explicit form of parsed data gives that data back. */
  lemma ParseUnparse(c: Collection, d: EntryData)
    requires ValidFor(c, d)
    ensures Parse(c, Unparse(d)) == Some(d)
  {
  }

  /** Parsing reaches exactly the data `ValidFor` describes, and omitting a defaulted flag is
      the same as writing `false`. */
  lemma ParseIsValidFor(c: Collection, raw: RawFrontmatter)
    requires Valid(raw)
    ensures ValidFor(c, Parse(c, raw).value)
    ensures Parse(c, raw.(draft := None)) == Parse(c, raw.(draft := Some(false)))
    ensures Parse(c, raw.(ageRestricted := None)) == Parse(c, raw.(ageRestricted := Some(false)))
    ensures Parse(c, raw.(hideIntroToc := None)) == Parse(c, raw.(hideIntroToc := Some(false)))
    ensures Parse(c, raw.(closed := None)) == Parse(c, raw.(closed := Some(false)))
  {
  }

  /** An excerpt of 81 characters from outside the Basic Multilingual Plane is 162 code units
      long, so the schema rejects it. */
  lemma AstralExcerptCountsTwice(raw: RawFrontmatter)
    requires raw.excerpt.Some? && |raw.excerpt.value| == 81
    requires forall i :: 0 <= i < 81 ==> raw.excerpt.value[i] == '\U{1F600}'
    ensures !Valid(raw) && Parse(Blog, raw).None?
  {
    Utf16LenProps(raw.excerpt.value, "");
  }

  /** An excerpt of 80 such characters is exactly 160 code units long, so an otherwise
      complete entry with it passes the schema. */
  lemma AstralExcerptAtLimit(raw: RawFrontmatter)
    requires raw.title.Some? && raw.category.Some? && raw.tags.Some? && |raw.tags.value| > 0
    requires raw.publishedAt.Some? && raw.updatedAt.Some?
    requires raw.excerpt.Some? && |raw.excerpt.value| == 80
    requires forall i :: 0 <= i < 80 ==> raw.excerpt.value[i] == '\U{1F600}'
    ensures Utf16Len(raw.excerpt.value) == EXCERPT_MAX
    ensures Valid(raw) && Parse(Blog, raw).Some?
  {
    Utf16LenProps(raw.excerpt.value, "");
  }
}
