# A Dafny model of a multi-site Astro blog

The blog is one set of Markdown posts built as several static sites. The `all` site lists
everything. Each sub-site (`diary`, `hoge`) renders the detail pages of the posts that match
its category and age-restriction filter. This project models the logic that decides where a
post is listed, rendered and linked. It also models:

- the bookkeeping that keeps one generated OGP image per post;
- the cache of remote OGP images;
- the `_redirects` file written after a build;
- the two rehype plugins that rewrite external links and wrap tables;
- the slug helpers and the resolution of image paths written in posts.

Each module follows one source file:

| module | file | what it holds |
|---|---|---|
| `Sites` | `sites.dfy` | the site table and the build-wide constants |
| `SiteHelpers` | `site_helpers.dfy` | dev URLs, site keys, category thumbnails |
| `SiteConfig` | `site_config.dfy` | site selection from the environment, detail-page routing, post and canonical URLs |
| `ContentSchema` | `content_schema.dfy` | the front-matter schemas of the three collections |
| `ContentDetector` | `content_detector.dfy` | the memoised real-content test and the sample collections |
| `CategoryFilter` | `category_filter.dfy` | the filtered, sorted and unified getters |
| `Taxonomy` | `taxonomy.dfy` | `aggregateTaxonomy`, with its counting maps and ordering |
| `Seqs` | `seqs.dfy` | a stable sort by descending key, standing for `Array.prototype.sort` |
| `Frontmatter` | `frontmatter.dfy` | the light-weight front-matter reader of the OGP integration |
| `OgpGenerator` | `ogp_generator.dfy` | the manifest and image-file operations |
| `OgpImages` | `ogp_images.dfy` | content listing, the reconciliation run, and the dev-server middleware |
| `Thumbnail` | `thumbnail.dfy` | the thumbnail fallback chain |
| `OgpCache` | `ogp_cache.dfy` | the remote-image cache with its expiry |
| `Redirects` | `redirects.dfy` | the `_redirects` text |
| `Hast` | `hast.dfy` | the HTML syntax-tree datatype shared by the plugins |
| `ExternalLinks` | `external_links.dfy` | the external-link plugin |
| `WrapTables` | `wrap_tables.dfy` | the table-wrapping plugin |
| `Slugify` | `slugify.dfy` | `slugify` and `unslugify` |
| `Images` | `images.dfy` | `resolveImage` |
| `Strings` | `strings.dfy` | string helpers: prefixes, search and replace, split and join, trimming, a code-point order |

## Interfaces

The environment, the file system, the clock and the foreign libraries are parameters:

- **Environment.** `SiteConfig.Env` holds:
  - whether the build is a dev build;
  - `SITE_TYPE`, where the empty string means unset;
  - `SHOW_DRAFTS`.
- **Collections.** Blog posts, scraps and samples are sequences of entries.
- **Directories.** Content directories are trees of files. The build output is given by the listings of its `categories` and `tags` directories.
- **Image store.** The OGP image directory and its manifest are a set of file names plus a stored manifest that may be missing or unreadable.
- **MD5.** `generateTitleHash` and `generateCacheKey` are a parameter `h: string -> string`. Where the 16-hex-digit shape of the digest matters, the ghost predicate `OgpGenerator.ValidDigest` says it holds.
- **Rendering and downloads.** Rendering an image (satori and sharp) is a success flag. A download is a `FetchOutcome`.
- **Clock.** Time is an integer number of milliseconds.
- **URL parsing.** `new URL` is a `UrlParser` value.
- **Unicode.** The Unicode letter and number classes and the case mappings are a `Slugify.CharClasses` value. The ghost predicates `Coherent` and `RoundTrips` say how they behave.
- **Front-matter reader.** `OgpImages` takes it as a parameter `parse`. The integration's own reader is `Frontmatter.ParseFrontmatter`.

## Model

| member | source | states |
|---|---|---|
| Sites.Lookup | src/utils/siteHelpers.ts:25 | `SITES[key]` is absent exactly for an undeclared key; with distinct keys it is the site declared under that key |
| Sites.AllSite | src/config/sites.config.ts:85-87 | a well-formed table has a site keyed `all` |
| Sites.SitesWellFormed | src/config/sites.config.ts:58-87 | the configured table has distinct, non-empty keys and declares `all` |
| Sites.AllSiteIsUnfiltered | src/config/sites.config.ts:73-93 | the `all` site has neither a category nor an age filter, and `CANONICAL_SITE_URL` is its URL |
| SiteHelpers.GetDevUrl | src/utils/siteHelpers.ts:24-27 | a declared key gives `http://localhost:` and its port; any other key gives port 4321 |
| SiteHelpers.DevUrlsOfSites | src/utils/siteHelpers.ts:24-27 | with the configured table, `diary`, `hoge` and `all` are served on 4322, 4323 and 4321 |
| SiteHelpers.UnknownKeyGetsAllDevUrl | src/utils/siteHelpers.ts:26 | an undeclared key gets the dev URL of the `all` site |
| SiteHelpers.GetSiteTypes | src/utils/siteHelpers.ts:33-35 | the site keys in declaration order (the order `Object.keys` uses for keys that are not array indices), including `all` |
| SiteHelpers.GetCategoryThumbnail | src/utils/siteHelpers.ts:42-45 | always a configured theme: the category's own, else `_default` |
| SiteConfig.SiteConfigTable | src/utils/siteConfig.ts:82-90 | one configuration per site, in declaration order (as `Object.entries` lists keys that are not array indices), whose dev URL is localhost on the site's port |
| SiteConfig.ShouldShowDrafts | src/utils/siteConfig.ts:103-107 | never outside dev; in dev unless `SHOW_DRAFTS` is exactly `false` |
| SiteConfig.GetSiteType | src/utils/siteConfig.ts:119-126 | the requested type when it is declared, otherwise `all` (also when unset); with a well-formed table, a declared key |
| SiteConfig.SiteTypeOfEnvFor | src/utils/siteConfig.ts:119-126 | building with `SITE_TYPE` set to a declared key selects that key |
| SiteConfig.GetCurrentConfig | src/utils/siteConfig.ts:131-133 | the table's configuration of the selected site type |
| SiteConfig.KeyDeterminesConfig | src/utils/siteConfig.ts:131-133 | the configuration of the selected site is the only one in the table with its key |
| SiteConfig.MatchesSiteCondition | src/utils/siteConfig.ts:218-231 | holds iff the category filter is absent or lists the category, and the age filter is absent or equals the post's flag |
| SiteConfig.FirstSubSiteMatch | src/utils/siteConfig.ts:261-268 | the first sub-site, in declaration order, whose condition the post matches, or none |
| SiteConfig.ShouldGenerateDetail | src/utils/siteConfig.ts:236-254 | on a sub-site, iff the post matches that site; on `all`, iff no sub-site matches it (also scraps, lines 277-294) |
| SiteConfig.HomeSite | src/utils/siteConfig.ts:259-272 | the site a detail URL points at is the first matching sub-site in table order (every earlier sub-site fails to match), or `all` exactly when no sub-site matches |
| SiteConfig.GetDetailUrl | src/utils/siteConfig.ts:259-272 | the URL is under a site whose build generates that detail page (also scraps, lines 299-312) |
| SiteConfig.HomeSiteGeneratesDetail | src/utils/siteConfig.ts:236-272 | the build of the site `getPostDetailUrl` picks generates that post's page |
| SiteConfig.DetailPagePartition | src/utils/siteConfig.ts:236-254 | every post has its detail page on some site, and never on both `all` and a sub-site |
| SiteConfig.GetAdultSiteConfig | src/utils/siteConfig.ts:152-159 | the first site with `ageRestricted === true`, or none exactly when there is no such site |
| SiteConfig.FirstAdult | src/utils/siteConfig.ts:153-158 | the search from a position finds the first age-restricted site at or after it |
| SiteConfig.GetPostUrl | src/utils/siteConfig.ts:167-181 | absolute on the adult site only on `all` for an age-restricted post when an adult site exists; otherwise `/posts/<slug>/` |
| SiteConfig.GetCanonicalUrl | src/utils/siteConfig.ts:189-205 | none on `all` and for an age-restricted article on an age-restricted site; otherwise the `all` URL plus the path |
| SiteConfig.ShouldGenerateListingPages | src/utils/siteConfig.ts:211-213 | only the `all` site builds listing pages |
| SiteConfig.SubSiteConditions | src/config/sites.config.ts:59-72 | `diary` takes exactly the unrestricted `日記` posts, `hoge` exactly the age-restricted ones, and no post matches both |
| SiteConfig.ExactlyOneSiteRendersEachPost | src/utils/siteConfig.ts:236-272 | with the configured table, exactly one site renders each post, and the detail URL points at it |
| SiteConfig.HomeSiteIsExpected | src/utils/siteConfig.ts:259-272 | with the configured table, the detail URL of a post is on `hoge`, `diary` or `all` by its flag and category |
| SiteConfig.HomeOfAgeRestricted | src/utils/siteConfig.ts:259-272 | an age-restricted post of any category is rendered on `hoge` |
| SiteConfig.AgeRestrictedLinkFromAllReachesDetailPage | src/utils/siteConfig.ts:167-181 | on `all`, the link to an age-restricted post is the URL of its detail page |
| SiteConfig.CanonicalUrlsOfSubSites | src/utils/siteConfig.ts:189-205 | `diary` pages point their canonical at the main site; `hoge` detail pages have none |
| ContentSchema.Parse | src/content/config.ts:3-50 | accepted iff the required fields are present, tags are non-empty and the excerpt is at most 160 UTF-16 code units long; flags default to false; `hideIntroToc` and `closed` exist per collection |
| ContentSchema.ParseUnparse | src/content/config.ts:3-50 | every valid entry is read back unchanged from its own front matter |
| ContentSchema.ParseIsValidFor | src/content/config.ts:13-15 | a parsed entry is valid for its collection, and an absent flag reads as `false` |
| ContentSchema.AstralExcerptCountsTwice | src/content/config.ts:11 | an excerpt of 81 emoji is 162 code units and is rejected |
| ContentSchema.AstralExcerptAtLimit | src/content/config.ts:11 | an excerpt of 80 emoji is exactly 160 code units, so an otherwise complete entry is accepted |
| ContentDetector.HasRealContent | src/utils/contentDetector.ts:18-35 | true iff blog or scraps is non-empty; the first answer is remembered and returned from then on |
| ContentDetector.HasRealContentIsMemoised | src/utils/contentDetector.ts:19-26 | a second call returns the first answer whatever the collections are then |
| ContentDetector.SamplesUnder | src/utils/contentDetector.ts:45-57 | exactly the samples under a prefix, each with the prefix stripped from id and slug and its data unchanged |
| ContentDetector.SamplesUnderConcat | src/utils/contentDetector.ts:45 | the filter keeps listing order |
| ContentDetector.GetSamplePosts | src/utils/contentDetector.ts:43-58 | the `blog/` samples with the prefix stripped |
| ContentDetector.GetSampleScraps | src/utils/contentDetector.ts:66-76 | the `scraps/` samples with the prefix stripped |
| ContentDetector.SampleKindsDisjoint | src/utils/contentDetector.ts:45-68 | no sample is both a blog sample and a scrap sample |
| Seqs.Insert | src/utils/categoryFilter.ts:92-94 | inserting into a descending sequence keeps it descending and adds exactly the element |
| Seqs.SortDesc | src/utils/categoryFilter.ts:92-94 | the result is a permutation with non-increasing keys |
| Seqs.InsertWithKey | src/utils/categoryFilter.ts:92-94 | insertion puts an element before the existing elements with its key |
| Seqs.SortDescIsStable | src/utils/categoryFilter.ts:92-94 | elements with equal keys keep their order, as `Array.prototype.sort` does |
| Seqs.SortDescOfSorted | src/utils/categoryFilter.ts:92-94 | a sequence already in order is left as it is |
| CategoryFilter.IsIncluded | src/utils/categoryFilter.ts:20-34 | `isPostIncluded` (and `isScrapIncluded`, lines 161-175) is exactly the current site's condition |
| CategoryFilter.Select | src/utils/categoryFilter.ts:44-48 | an entry is selected iff it is in the input and the filter admits it; a sub-multiset of the input |
| CategoryFilter.SelectConcat | src/utils/categoryFilter.ts:44-48 | selection distributes over concatenation, so listing order is kept |
| CategoryFilter.SelectMonotone | src/utils/categoryFilter.ts:43-85 | a stronger filter selects a sub-multiset of what a weaker one selects |
| CategoryFilter.SelectAgree | src/utils/categoryFilter.ts:102-119 | filters that agree on every entry select the same sequence |
| CategoryFilter.PostSource | src/utils/categoryFilter.ts:51-56 | the blog collection when real content exists, the blog samples otherwise |
| CategoryFilter.ScrapSource | src/utils/categoryFilter.ts:188-193 | the scraps when real content exists, the scrap samples otherwise |
| CategoryFilter.GetFilteredPosts | src/utils/categoryFilter.ts:43-61 | exactly the visible entries of the current source that the current site includes |
| CategoryFilter.GetAllPosts | src/utils/categoryFilter.ts:68-85 | exactly the visible entries of the current source |
| CategoryFilter.GetPostsForDetailPages | src/utils/categoryFilter.ts:102-119 | exactly the visible entries of the current source whose detail page this site generates |
| CategoryFilter.GetFilteredScraps | src/utils/categoryFilter.ts:181-198 | exactly the visible scraps of the current source that the current site includes |
| CategoryFilter.GetScrapsForDetailPages | src/utils/categoryFilter.ts:214-231 | exactly the visible scraps of the current source whose detail page this site generates |
| CategoryFilter.GetSortedFilteredPosts | src/utils/categoryFilter.ts:90-95 | a permutation of the filtered posts, newest first |
| CategoryFilter.GetSortedFilteredScraps | src/utils/categoryFilter.ts:203-208 | a permutation of the filtered scraps, newest first |
| CategoryFilter.AsBlogPosts | src/utils/categoryFilter.ts:242-245 | each post tagged as a blog post, in order |
| CategoryFilter.AsScrapPosts | src/utils/categoryFilter.ts:246-249 | each scrap tagged as a scrap, in order |
| CategoryFilter.TaggedMembers | src/utils/categoryFilter.ts:241-250 | a tagged post is in the unified list iff it is in its own list |
| CategoryFilter.GetSortedFilteredUnifiedPosts | src/utils/categoryFilter.ts:237-256 | a permutation (equal multisets) of the filtered posts and the filtered scraps, each tagged by kind: one item per filtered post and per filtered scrap, a tagged entry is present iff it is in its filtered list; newest first |
| CategoryFilter.ListingWithinAllPosts | src/utils/categoryFilter.ts:43-85 | the filtered posts are a sub-multiset of all posts |
| CategoryFilter.SubSiteDetailIsListing | src/utils/categoryFilter.ts:102-119 | on a sub-site, the detail pages are exactly the listed posts and scraps |
| CategoryFilter.AllBuildListsEverything | src/utils/categoryFilter.ts:43-85 | on `all`, the filtered posts are all posts |
| CategoryFilter.EachPostHasOneDetailPage | src/utils/categoryFilter.ts:102-119 | with the configured table, each post is a detail page of exactly its expected site |
| Taxonomy.Add | src/utils/categoryFilter.ts:133 | one increment: the count of the name goes up by one, a new name is appended, nothing else changes |
| Taxonomy.TallyOf | src/utils/categoryFilter.ts:131-145 | one entry per distinct name, counting its occurrences; the counts sum to the input length |
| Taxonomy.CountOfMember | src/utils/categoryFilter.ts:131-145 | with distinct names, an entry's count is the tally of its name |
| Taxonomy.LeTransitive | src/utils/categoryFilter.ts:149 | the comparator (count descending, then name) is transitive |
| Taxonomy.LeTotal | src/utils/categoryFilter.ts:149 | the comparator orders any two entries |
| Taxonomy.LeAntisymmetric | src/utils/categoryFilter.ts:149 | two entries that order each other are equal |
| Taxonomy.Insert | src/utils/categoryFilter.ts:147-149 | insertion keeps the list ordered and adds exactly the entry |
| Taxonomy.InsertNames | src/utils/categoryFilter.ts:147-149 | insertion adds exactly the entry's name and keeps names distinct |
| Taxonomy.SortCounts | src/utils/categoryFilter.ts:147-153 | an ordered permutation with the same names and total |
| Taxonomy.CategoryNames | src/utils/categoryFilter.ts:131-141 | one category per entry, in order |
| Taxonomy.TagNames | src/utils/categoryFilter.ts:131-145 | a name is listed iff some entry carries it as a tag |
| Taxonomy.Summary | src/utils/categoryFilter.ts:147-153 | distinct names with their occurrence counts, ordered by count then name |
| Taxonomy.AggregateTaxonomy | src/utils/categoryFilter.ts:124-156 | category counts are the entries per category and sum to the number of posts and scraps; tag counts are total occurrences; both lists have distinct names in order |
| Frontmatter.HasValue | src/integrations/ogpImages.ts:46 | `\s*(.+)$` matches the text after the colon |
| Frontmatter.Unquote | src/integrations/ogpImages.ts:50-53 | one matching pair of double or single quotes is removed; anything else is left |
| Frontmatter.CleanLine | src/integrations/ogpImages.ts:45 | one trailing carriage return is removed |
| Frontmatter.ParseLine | src/integrations/ogpImages.ts:45-55 | a line yields a word-character key or nothing |
| Frontmatter.ParseLineMatchesRegex | src/integrations/ogpImages.ts:46 | a line yields a pair iff `^(\w+):\s*(.+)$` matches it, and then the pair is the key and the trimmed, unquoted value |
| Frontmatter.ParseLineAt | src/integrations/ogpImages.ts:46-54 | where the pattern matches with the colon at a position, the pair is the key before it and the value after it |
| Frontmatter.KeyEndsAtColon | src/integrations/ogpImages.ts:46 | the key is the whole leading run of word characters |
| Frontmatter.ParseKeyValueLine | src/integrations/ogpImages.ts:46-54 | `key: value` reads back as the key and the trimmed, unquoted value |
| Frontmatter.KeyValueLineIsClean | src/integrations/ogpImages.ts:45 | such a line has no carriage return to remove |
| Frontmatter.KeyValueLineMatches | src/integrations/ogpImages.ts:46 | such a line matches with the colon after the key |
| Frontmatter.Assign | src/integrations/ogpImages.ts:40-54 | the keys of the map are exactly the keys some line sets, never `__proto__`: assigning that key on an object literal runs the inherited setter and creates no own key |
| Frontmatter.AssignLastWins | src/integrations/ogpImages.ts:43-55 | a key gets the value of the last line that sets it; a `__proto__` entry sets nothing |
| Frontmatter.ParseLines | src/integrations/ogpImages.ts:41-56 | every key is a word |
| Frontmatter.ParseLinesKeys | src/integrations/ogpImages.ts:43-55 | the keys are exactly those of the matching lines, except `__proto__` |
| Frontmatter.ParseLinesLastWins | src/integrations/ogpImages.ts:43-55 | a later duplicate key overwrites an earlier one; a `__proto__` line leaves no key |
| Frontmatter.ProtoLineSetsNothing | src/integrations/ogpImages.ts:40-54 | a `__proto__: <value>` line matches the pattern, yet the parsed front matter is `{}` |
| Frontmatter.OpenLen | src/integrations/ogpImages.ts:35 | the opening `---` with `\n` or `\r\n`, or nothing |
| Frontmatter.FirstClose | src/integrations/ogpImages.ts:35 | the first later `\r?\n---`, which the lazy group stops at |
| Frontmatter.Block | src/integrations/ogpImages.ts:35-38 | the text between the opening and the first closing delimiter, or none when either is missing |
| Frontmatter.ParseFrontmatter | src/integrations/ogpImages.ts:34-59 | an empty map without a front-matter block; otherwise word keys only |
| Frontmatter.BlockOfDelimited | src/integrations/ogpImages.ts:35 | a body between `---` lines that holds no delimiter is read back exactly |
| Frontmatter.NoOpeningNoFrontmatter | src/integrations/ogpImages.ts:35-38 | content that does not start with `---` and a newline has no front matter |
| OgpGenerator.LoadManifest | src/utils/ogpImageGenerator.ts:89-99 | a missing or unreadable manifest reads as an empty version-1 manifest |
| OgpGenerator.ImagePath | src/utils/ogpImageGenerator.ts:250 | the public path lies under `/ogp/` and ends in `.png` |
| OgpGenerator.ImagePathInjective | src/utils/ogpImageGenerator.ts:250 | different hashes give different paths |
| OgpGenerator.GetOgpImagePathBySlug | src/utils/ogpImageGenerator.ts:256-263 | none iff the manifest has no entry for the slug; otherwise the path of the entry's hash |
| OgpGenerator.OgpImageExistsByTitle | src/utils/ogpImageGenerator.ts:268-272 | iff the file named by the title's hash exists |
| OgpGenerator.GenerateOgpImage | src/utils/ogpImageGenerator.ts:209-251 | on success, creates `<hash>.png`, records the slug's entry and returns its path, leaving other slugs alone; on failure, changes nothing |
| OgpGenerator.DeleteOgpImage | src/utils/ogpImageGenerator.ts:277-288 | true iff the file existed; afterwards it is gone and the manifest is unchanged (a failing unlink is left out) |
| OgpGenerator.DeleteOgpImageIdempotent | src/utils/ogpImageGenerator.ts:277-288 | a second deletion returns false and changes nothing |
| OgpGenerator.RemoveManifestEntry | src/utils/ogpImageGenerator.ts:293-297 | only the slug's entry goes; files and other entries are unchanged |
| OgpGenerator.GeneratedPathRoundTrip | src/utils/ogpImageGenerator.ts:242-263 | after generation, the slug's manifest path is the returned path and the image exists |
| OgpGenerator.GenerateThenRemove | src/utils/ogpImageGenerator.ts:293-297 | generating and then removing a slug leaves every other slug's path as before |
| OgpImages.Files | src/integrations/ogpImages.ts:64-81 | each listed file lies under the directory, and its path ends in its name |
| OgpImages.StripExt | src/integrations/ogpImages.ts:92 | one `.mdx` or `.md` extension is removed |
| OgpImages.ContentFiles | src/integrations/ogpImages.ts:83-85 | exactly the `.mdx` and `.md` files |
| OgpImages.ContentFilesConcat | src/integrations/ogpImages.ts:74-85 | the filter keeps listing order |
| OgpImages.Posts | src/integrations/ogpImages.ts:87-97 | one post per content file, in order |
| OgpImages.PostsConcat | src/integrations/ogpImages.ts:74-97 | reading posts keeps the order of the files |
| OgpImages.GetPostsFromDir | src/integrations/ogpImages.ts:64-104 | the posts of the content files below a directory, depth first |
| OgpImages.GetAllContentPosts | src/integrations/ogpImages.ts:109-113 | exactly the posts of the content files of both roots |
| OgpImages.FileAt | src/integrations/ogpImages.ts:123-124 | the file at a relative path, or none iff there is none |
| OgpImages.SlugFile | src/integrations/ogpImages.ts:122-124 | the `.mdx` file of a slug, else its `.md` file, or none iff neither exists |
| OgpImages.GetPostBySlug | src/integrations/ogpImages.ts:118-136 | a post under the requested slug iff a content file of that slug exists under either root |
| OgpImages.SlugFileIsContent | src/integrations/ogpImages.ts:83-92 | the file a slug names is a content file whose slug is that slug |
| OgpImages.ListedPostsFoundBySlug | src/integrations/ogpImages.ts:118-136 | every listed post is found again by its slug |
| OgpImages.SlugLookupIsListed | src/integrations/ogpImages.ts:118-136 | a post found by slug comes from a listed content file with that slug |
| OgpImages.GetPostByTitleHash | src/integrations/ogpImages.ts:141-151 | a post without a thumbnail whose title has the hash, or none iff no such post exists |
| OgpImages.TitleHashFindsFirst | src/integrations/ogpImages.ts:143-148 | it is the first such post in listing order |
| OgpImages.Cleanup | src/integrations/ogpImages.ts:174-184 | the images of non-current manifest slugs are deleted and counted, their entries removed, and other slugs untouched |
| OgpImages.ProcessPost | src/integrations/ogpImages.ts:187-232 | a post with a thumbnail is skipped unless forced; with `skipExisting` and without `force`, a post that was not retitled and whose title's image exists is skipped without change; otherwise a rendered post has its image and its entry records its title's hash, counted as regenerated iff it was retitled; a failed render keeps the manifest; an image is lost only as the old image of a retitled post whose hash is not kept; other slugs are untouched |
| OgpImages.ProcessPosts | src/integrations/ogpImages.ts:187-232 | an image lost in step 2 is the old image of a processed, retitled post whose hash is not kept; an image gained is that of a processed post's title; slugs of no post keep their entries; with distinct slugs, a processed post that renders ends with an entry for its current title (when the store agreed with the snapshot on its slug) and keeps the entry it had; the counters sum to at most the number of posts |
| OgpImages.KeptImagesSurvive | src/integrations/ogpImages.ts:197-201 | step 2 never removes an image whose hash is kept |
| OgpImages.ProcessedImageExists | src/integrations/ogpImages.ts:194-232 | a processed post that renders has its image after step 2 when its hash is kept |
| OgpImages.RunWith | src/integrations/ogpImages.ts:156-235 | an image lost is an orphan's or the old image of a processed, retitled post whose hash is not kept; an image gained is that of a processed post's title; every entry left belongs to a post of the run; with distinct slugs, a processed post that renders ends with an entry for its current title, and one without a thumbnail keeps its entry; the deleted counter is the number of orphan images that existed, and the other counters sum to at most the number of posts |
| OgpImages.GenerateAllOgpImages | src/integrations/ogpImages.ts:156-235 | the run as written: the same image, entry and counter statements, where any retitled post may lose its old image |
| OgpImages.GenerateAllOgpImagesFixed | src/integrations/ogpImages.ts:156-235 | with the fix, every processed post that renders has its image at the end of the run, and an old image is lost only when no processed post of the run shows that title; the entry and counter statements are those of the run as written |
| OgpImages.ExampleCleanup | src/integrations/ogpImages.ts:174-184 | worked example: both manifest slugs are current, so step 1 deletes nothing |
| OgpImages.ExampleFirstPost | src/integrations/ogpImages.ts:216-219 | worked example: a post whose image exists is skipped without change |
| OgpImages.ExampleSecondPost | src/integrations/ogpImages.ts:197-201 | worked example: the retitled post deletes the image its old title shares with another post |
| OgpImages.AsWrittenDeletesSharedImage | src/integrations/ogpImages.ts:194-213 | as written, a run can end without the image of a processed post that rendered |
| OgpImages.ExampleStep2 | src/integrations/ogpImages.ts:194-219 | worked example: step 2 skips `b`, whose image exists, then `a` deletes the image of "T" |
| OgpImages.FixedKeepsSharedImage | src/integrations/ogpImages.ts:194-213 | with the fix, the same run keeps that image |
| OgpImages.Decide | src/integrations/ogpImages.ts:257-295 | only a missing `/ogp/*.png` is generated; a hash names a listed post without a thumbnail whose title has it; another name is a slug whose post has no thumbnail |
| OgpImages.Serve | src/integrations/ogpImages.ts:256-309 | the middleware only adds images and entries, and ignores other requests |
| OgpImages.HashRequestServed | src/integrations/ogpImages.ts:274-286 | a missing image requested by hash is produced iff some listed post without a thumbnail has a title with that hash |
| OgpImages.LegacyRequestStaysMissing | src/integrations/ogpImages.ts:287-304 | a missing image requested by slug is still missing afterwards |
| OgpImages.RequestedNameOfImagePath | src/integrations/ogpImages.ts:265-274 | the public path of a hash is a request the middleware handles, naming that hash |
| Thumbnail.GetThumbnail | src/utils/getThumbnail.ts:18-39 | an explicit thumbnail, even empty, as given; else the manifest path; else the title-hash path for a non-empty title; else the slug path; always under `/ogp/` and ending in `.png` without an explicit thumbnail |
| Thumbnail.ThumbnailAfterGeneration | src/utils/getThumbnail.ts:25-28 | after generation, a page points at the generated image, which exists |
| Thumbnail.TitleFallbackIsServed | src/utils/getThumbnail.ts:32-35 | a post unknown to the manifest points at its title's hash, which the middleware then produces |
| Thumbnail.SlugFallbackStaysMissing | src/utils/getThumbnail.ts:38 | the slug fallback names an image the middleware never produces |
| OgpCache.LoadManifest | src/utils/ogpImageCache.ts:38-48 | a missing or unreadable cache manifest reads as an empty version-1 manifest |
| OgpCache.CacheValidity | src/utils/ogpImageCache.ts:79-88 | with a positive maximum, valid iff younger than the maximum age; validity only runs out over time |
| OgpCache.CachePath | src/utils/ogpImageCache.ts:150-160 | the cached file lives under `/ogp-cache/` |
| OgpCache.GetLocalImagePath | src/utils/ogpImageCache.ts:94-114 | the recorded path iff the entry exists, is not expired and its file exists |
| OgpCache.DownloadAndCacheImage | src/utils/ogpImageCache.ts:120-179 | a cached path that is not empty is returned without a fetch; otherwise a failed fetch returns none and changes nothing, and a successful one returns `/ogp-cache/<key>.webp`, adds `<key>.webp` and records that path with the time; other URLs are untouched |
| OgpCache.DownloadThenLookup | src/utils/ogpImageCache.ts:150-168 | a downloaded image is found by lookup until it reaches the maximum age |
| OgpCache.DownloadIdempotent | src/utils/ogpImageCache.ts:121-125 | downloading the same URL again at once returns the same path and changes nothing |
| Redirects.DirNames | src/integrations/redirects.ts:52-56 | the sub-directories of a listing; none for a missing directory |
| Redirects.Directories | src/integrations/redirects.ts:53-56 | exactly the names of the directory entries |
| Redirects.DirectoriesConcat | src/integrations/redirects.ts:54-60 | listing order is kept |
| Redirects.DirRules | src/integrations/redirects.ts:58-59 | two rules per directory |
| Redirects.SectionRules | src/integrations/redirects.ts:54-61 | the two rules of each directory, in listing order |
| Redirects.PaginationLines | src/integrations/redirects.ts:46-79 | the header, two lines per category and per tag directory, then an empty line |
| Redirects.GeneratePaginationRedirects | src/integrations/redirects.ts:46-80 | starts with `# Pagination redirects` and ends with a newline |
| Redirects.PaginationFileLines | src/integrations/redirects.ts:48-79 | the file splits back into exactly its lines: header, category rules, tag rules |
| Redirects.RedirectSiteType | src/integrations/redirects.ts:17 | an unset `SITE_TYPE` means `all` |
| Redirects.FallbackContent | src/integrations/redirects.ts:26-30 | a comment naming the site, ending in a newline |
| Redirects.FallbackLinesRoundTrip | src/integrations/redirects.ts:28-30 | the text splits back into the comment, the rule and an empty line |
| Redirects.RedirectsContent | src/integrations/redirects.ts:16-31 | never empty and newline-terminated; for `all` it starts with the pagination header, otherwise with the site's fallback comment |
| Redirects.AllFileLines | src/integrations/redirects.ts:17-25 | the `all` site's file is exactly the pagination lines: header, category rules, tag rules and an empty last line |
| Redirects.FallbackFileLines | src/integrations/redirects.ts:26-30 | a sub-site's file is exactly a comment and `/* <allUrl>/:splat 302` |
| Redirects.UndeclaredSiteTypeRedirects | src/integrations/redirects.ts:17-30 | an undeclared `SITE_TYPE` builds the `all` site yet writes the fallback file |
| ExternalLinks.GetOrigin | src/plugins/rehype-external-links.js:28-35 | none for an absent or empty site or one that does not parse; else the parsed origin |
| ExternalLinks.HasSchemeMatchesRegex | src/plugins/rehype-external-links.js:41 | the scheme test is `^[a-zA-Z][a-zA-Z+.-]*:` |
| ExternalLinks.ProtocolRelativeTestIsDead | src/plugins/rehype-external-links.js:38-57 | a link is external iff it has no local prefix, has a scheme, and resolves to http(s) on another origin; so `//` links never are |
| ExternalLinks.FixedClassifiesProtocolRelative | src/plugins/rehype-external-links.js:40-41 | the corrected test decides `//` links by where they resolve and agrees elsewhere |
| ExternalLinks.ProtocolRelativeLinkExample | src/plugins/rehype-external-links.js:40-41 | a `//` link to another host is called internal as written, external with the fix |
| ExternalLinks.AddOne | src/plugins/rehype-external-links.js:66 | `Set.add` appends a new value and keeps the values distinct |
| ExternalLinks.AddAll | src/plugins/rehype-external-links.js:64-72 | the values of both, distinct, the existing ones first |
| ExternalLinks.AddAllOrder | src/plugins/rehype-external-links.js:64-72 | added values appear in first-occurrence order |
| ExternalLinks.ArrayValues | src/plugins/rehype-external-links.js:63-68 | the non-blank strings of an array `rel` |
| ExternalLinks.ArrayValuesMembers | src/plugins/rehype-external-links.js:63-68 | exactly the non-blank string items |
| ExternalLinks.Words | src/plugins/rehype-external-links.js:69-72 | the non-empty pieces of a string `rel` between runs of white space |
| ExternalLinks.WordsOfJoin | src/plugins/rehype-external-links.js:70 | words joined by spaces split back into the same words |
| ExternalLinks.RelCandidates | src/plugins/rehype-external-links.js:63-73 | the candidates are never blank |
| ExternalLinks.WithBase | src/plugins/rehype-external-links.js:61-75 | `noopener` and `noreferrer` first, then the distinct candidates; nothing else |
| ExternalLinks.BuildRel | src/plugins/rehype-external-links.js:60-76 | `noopener`, `noreferrer`, then the existing values; distinct, never blank, nothing else |
| ExternalLinks.BuildRelOrder | src/plugins/rehype-external-links.js:60-76 | the existing values follow in first-occurrence order |
| ExternalLinks.BuildRelStable | src/plugins/rehype-external-links.js:60-76 | building `rel` from a built `rel` gives it back |
| ExternalLinks.DefaultMarkTrimmed | src/plugins/rehype-external-links.js:3 | the default mark trims to U+29C9 |
| ExternalLinks.MarkText | src/plugins/rehype-external-links.js:79 | a string mark trimmed; any other value the trimmed default |
| ExternalLinks.MarkSpan | src/plugins/rehype-external-links.js:92-97 | the span added is itself a mark |
| ExternalLinks.AppendMark | src/plugins/rehype-external-links.js:78-98 | one mark span at the end unless the text is blank or a mark exists; earlier children unchanged |
| ExternalLinks.AppendMarkIdempotent | src/plugins/rehype-external-links.js:84-90 | a second `appendMark` adds nothing |
| ExternalLinks.RewriteProps | src/plugins/rehype-external-links.js:17-19 | `target` is `_blank`, `rel` is built, other properties are copied |
| ExternalLinks.AddedChildren | src/plugins/rehype-external-links.js:21-23 | a mark is added iff the option is truthy, its text is not blank and no mark exists |
| ExternalLinks.Visit | src/plugins/rehype-external-links.js:9-25 | node kinds and tags are kept; elements other than external links keep their properties |
| ExternalLinks.VisitAll | src/plugins/rehype-external-links.js:10 | siblings are visited one by one |
| ExternalLinks.TargetLinkRewritten | src/plugins/rehype-external-links.js:11-23 | an external link gets `target`, `rel`, and its children followed by the added mark |
| ExternalLinks.VisitMarkSpan | src/plugins/rehype-external-links.js:92-97 | the walk leaves an added mark as it is |
| ExternalLinks.RewritePropsStable | src/plugins/rehype-external-links.js:17-19 | rewriting rewritten properties changes nothing |
| ExternalLinks.RewrittenLinkIdempotent | src/plugins/rehype-external-links.js:11-23 | a rewritten link is left as it is by a second run when its children are |
| ExternalLinks.NoSecondMark | src/plugins/rehype-external-links.js:84-90 | once a link's children hold the added mark, appending again adds nothing |
| ExternalLinks.VisitIdempotent | src/plugins/rehype-external-links.js:9-25 | running the plugin twice equals running it once |
| ExternalLinks.VisitAllIdempotent | src/plugins/rehype-external-links.js:9-25 | the same for a list of siblings |
| ExternalLinks.RehypeExternalLinks | src/plugins/rehype-external-links.js:5-26 | the plugin as written keeps the root a root |
| ExternalLinks.RehypeExternalLinksFixed | src/plugins/rehype-external-links.js:5-26 | the plugin with the corrected link test keeps the root a root |
| ExternalLinks.ProtocolRelativeTreeExample | src/plugins/rehype-external-links.js:40-41 | on a page, the `//` link is left alone as written and opened in a new tab with the fix |
| WrapTables.Wrapper | src/plugins/rehype-wrap-tables.js:13-20 | a `div.table-wrapper` holding the table alone, itself no table |
| WrapTables.Visit | src/plugins/rehype-wrap-tables.js:3-25 | node kinds, tags, properties and the number of children are kept |
| WrapTables.VisitChildren | src/plugins/rehype-wrap-tables.js:6-22 | a table child is replaced at its index by its wrapper unless the parent is a wrapper; other children are only visited |
| WrapTables.VisitWrapsTables | src/plugins/rehype-wrap-tables.js:9-22 | afterwards every table has a wrapper for a parent |
| WrapTables.VisitChildrenWrapsTables | src/plugins/rehype-wrap-tables.js:9-22 | the same for a list of siblings |
| WrapTables.VisitKeepsWrappedTree | src/plugins/rehype-wrap-tables.js:9-11 | a tree whose tables are all wrapped is left unchanged |
| WrapTables.VisitChildrenKeepsWrapped | src/plugins/rehype-wrap-tables.js:9-11 | the same for a list of siblings |
| WrapTables.VisitIdempotent | src/plugins/rehype-wrap-tables.js:10-11 | running the plugin twice equals running it once |
| WrapTables.WrapperHoldsTable | src/plugins/rehype-wrap-tables.js:13-22 | the wrapper's only child is the table, with its properties |
| Slugify.CollapseRuns | src/utils/slugify.ts:5-7 | each run becomes one `-`; for hyphen runs, no `--` remains |
| Slugify.KeepSlugChars | src/utils/slugify.ts:6 | exactly the letters, numbers and hyphens |
| Slugify.StripEdgeHyphens | src/utils/slugify.ts:8 | no hyphen at either end when there was no `--` |
| Slugify.Slugify | src/utils/slugify.ts:1-8 | only letters, numbers and `-`, no `--`, no hyphen at either end |
| Slugify.SlugifyIsSlug | src/utils/slugify.ts:1-8 | the output is also lower case |
| Slugify.LowerAllUnchanged | src/utils/slugify.ts:4 | lower-case text is left as it is |
| Slugify.CollapseRunsUnchanged | src/utils/slugify.ts:5-7 | text without runs is left as it is |
| Slugify.KeepSlugCharsUnchanged | src/utils/slugify.ts:6 | text of slug characters is left as it is |
| Slugify.SlugUnchanged | src/utils/slugify.ts:1-8 | a slug is its own slug |
| Slugify.SlugifyIdempotent | src/utils/slugify.ts:1-8 | slugifying twice equals slugifying once |
| Slugify.Unslugify | src/utils/slugify.ts:10-14 | as many characters as the slug |
| Slugify.UnslugifySpaced | src/utils/slugify.ts:10-14 | each hyphen becomes a space and each part starts with its upper case, except that a first character outside the Basic Multilingual Plane stays as it is |
| Slugify.SpacedChars | src/utils/slugify.ts:10-14 | hyphens become spaces; every other character stays or is upper-cased, and a character outside the Basic Multilingual Plane is never changed |
| Slugify.CollapseDehyphened | src/utils/slugify.ts:5 | collapsing a slug whose hyphens became spaces gives the slug back |
| Slugify.SlugifyUnslugify | src/utils/slugify.ts:1-14 | a slug whose characters lower back from their upper case, shown as a title and slugified again, is the same slug |
| Slugify.UnslugifySlugify | src/utils/slugify.ts:1-14 | a title's slug survives the trip through `unslugify` when its characters lower back from their upper case |
| Images.SearchPath | src/utils/images.ts:29 | one leading `.` is removed |
| Images.FindEntry | src/utils/images.ts:30-32 | the first glob entry whose path ends with the search path, or none iff no entry does |
| Images.ResolveImage | src/utils/images.ts:13-40 | metadata as it is; URLs and public paths remote; others resolved iff some entry ends with them, else returned as they are |
| Images.ResolvesToFirstMatch | src/utils/images.ts:29-37 | a local path resolves to the image of the first matching entry |
| Images.DotSlashMatchesWholeName | src/utils/images.ts:29-32 | `./a.png` only matches a file named `a.png` |
| Images.BareNameMatchesLongerName | src/utils/images.ts:29-32 | `a.png` written without `./` can resolve to `banana.png` |
| Strings.SplitJoin | src/integrations/redirects.ts:79 | joining the pieces of a split text with the separator gives the text back |
| Strings.JoinSplit | src/integrations/redirects.ts:79 | joining lines without the separator and splitting again gives them back |
| Strings.Trim | src/utils/slugify.ts:3 | no white space at either end; all-space text trims to empty |
| Strings.Utf16LenProps | src/content/config.ts:11 | code units add over concatenation; one per character without astral characters, two per astral character |
| Strings.StrLtTransitive | src/utils/categoryFilter.ts:149 | the name order used for ties is transitive |
| Strings.StrLtTotal | src/utils/categoryFilter.ts:149 | the name order orders any two different names |

## Left out

- Reading and writing files, directory traversal and `existsSync` are values: a set of file names, a stored manifest that may be missing or unreadable, and a tree of files. Errors while reading a directory are not modelled: `getPostsFromDir` swallows them.
- The path of a file is its path relative to the content root. `path.join` normalisation (`..`, doubled slashes) is not modelled.
- A manifest that parses as JSON but has the wrong shape is not modelled: a stored manifest is well formed or unreadable.
- `Object.entries` order of the manifest is a parameter `keys` of the reconciliation run.
- MD5 (RFC 1321) is a parameter. `OgpGenerator.ValidDigest` states the 16-lowercase-hex shape the middleware relies on.
- satori and sharp rendering, the font download of `ensureFont`, and the WebP conversion are a success flag or a `FetchOutcome`. The ten-second timeout and the User-Agent header are part of that outcome.
- `console.log`, `console.warn` and `console.error` output, and the `[Content Detection]` dev logging, are left out.
- `getCollection` and zod are left out. Collections are given as sequences, and the schema is a validity predicate with defaults (`ContentSchema.Parse`). Dates are integer timestamps.
- The `Date` arithmetic of `isCacheValid` is done in floating point in the source. Here it is integer milliseconds compared with `maxAgeDays * 86400000`, so the elapsed-days division is not modelled.
- `new URL` is the `UrlParser` parameter, so WHATWG URL parsing is not modelled.
- The Unicode classes `\p{Letter}` and `\p{Number}`, `\s`, and `toLowerCase`/`toUpperCase` are parameters or a fixed white-space set. Strings are sequences of code points; JavaScript's UTF-16 length is `Strings.Utf16Len`, and `charAt(0)` of a character outside the Basic Multilingual Plane is modelled by leaving that character whole, since upper-casing its lone surrogate changes nothing. Case mappings that change the length of a string (such as `ß` to `SS`) are not modelled. Nor is context-sensitive lowering: `toLowerCase` maps a capital sigma `Σ` to the final form `ς` at the end of a word and to `σ` elsewhere, which a per-character `cc.lower` cannot express.
- `localeCompare` in `aggregateTaxonomy` is replaced by code-point order, because locale collation is not modelled.
- `import.meta.glob` is a list of entries. Loading an image module is not modelled: an entry carries its metadata.
- A `className` that is a number would make `includes` throw in JavaScript. Here it simply does not include the class.
- In `getCategoryThumbnail`, lookups of inherited object properties such as `toString` are not modelled.
- `getAuthorSameAs`, `AUTHOR_PROFILE`, `FOOTER_LINKS`, `SITE_NAME` and `SITE_DESCRIPTION` are display data and are left out. `SITE_NAME` is only passed to the renderer.
- `fetchOgData.ts`, `date.ts`, `rss.xml.ts`, `copy-code.ts`, the build and dev scripts, and `astro.config.mjs` are plumbing, not part of this model.
- Astro's integration hooks (`astro:build:start`, `astro:server:setup`, `astro:build:done`) are left out. Their bodies are modelled as functions: `GenerateAllOgpImages`, `Serve` and `RedirectsContent`.
- Slugify.Unslugify: the contract gives only the length; what the text is, is stated by `Slugify.UnslugifySpaced` and `Slugify.SpacedChars`.
- OgpImages.ListedPostsFoundBySlug: it states only that a post is found. When both `x.md` and `x.mdx` exist, the `.md` post is found as the `.mdx` one.
- OgpImages.GetAllContentPosts: its contract states membership; order is given by `OgpImages.GetPostsFromDir` and `OgpImages.PostsConcat`.
- ExternalLinks.RehypeExternalLinks: its own contract only keeps the root a root; what the walk does is stated by `ExternalLinks.Visit`, `ExternalLinks.TargetLinkRewritten` and `ExternalLinks.VisitIdempotent`.
- ExternalLinks.RehypeExternalLinksFixed: its own contract only keeps the root a root; the corrected link test is stated by `ExternalLinks.FixedClassifiesProtocolRelative`, and its effect on a page by `ExternalLinks.ProtocolRelativeTreeExample`.
- SiteConfig.GetSiteType: `type in SITES` is also true for names inherited from `Object.prototype`, such as `toString`. Such a `SITE_TYPE` would be taken as the site type; the model treats every undeclared name as unknown, so it falls back to `all`.
- OgpGenerator.DeleteOgpImage: an `unlinkSync` that throws is caught, the function returns `false` and the file stays; the model assumes the unlink succeeds, so an image that exists is always removed and counted as deleted by the callers in `ogpImages.ts`.
- OgpGenerator.GetOgpImagePathBySlug: `manifest.entries[slug]` of a slug such as `constructor` finds an inherited function, so the source returns `/ogp/undefined.png`; the model has no entry for such a slug and returns none.
- OgpImages.ProcessPost: the same inherited lookup would make a post with slug `constructor` look retitled; the model treats it as a post without an entry.
- SiteHelpers.GetSiteTypes: `Object.keys` lists keys that are array indices (such as `"1"`) first, in numeric order; the model keeps declaration order, which is the source's order for the configured keys.
- SiteConfig.SiteConfigTable: built with `Object.entries`, so the same exception about array-index keys applies.

## Findings

| source | as written | input that shows it | evidently intended | confidence | as-written member | corrected member |
|---|---|---|---|---|---|---|
| src/integrations/ogpImages.ts:194-201 | a retitled post deletes the image file of its old title's hash, although images are shared by title | post `a` retitled from "T" to "U" while post `b`, processed earlier, is titled "T": `T`'s image is deleted after `b` was skipped as existing | keep an old image while a post of the same run still shows that title | not executed | OgpImages.GenerateAllOgpImages, OgpImages.AsWrittenDeletesSharedImage | OgpImages.GenerateAllOgpImagesFixed, OgpImages.FixedKeepsSharedImage |
| src/plugins/rehype-external-links.js:40-41 | the `//` test of line 41 is dead, because line 40 already returned false for every href starting with `/` | `//cdn.example.org/a.png` on `https://blog.example.com` | protocol-relative links to another host are external | not executed | ExternalLinks.ProtocolRelativeTestIsDead, ExternalLinks.ProtocolRelativeTreeExample | ExternalLinks.FixedClassifiesProtocolRelative, ExternalLinks.RehypeExternalLinksFixed |

## Notes

- A thumbnail set to the empty string is returned as the empty string (`Thumbnail.GetThumbnail`).
- The last thumbnail fallback, `/ogp/<slug>.png`, is never produced. The dev-server middleware takes the slug as a legacy name, but it writes the image under the title's hash (`Thumbnail.SlugFallbackStaysMissing`, `OgpImages.LegacyRequestStaysMissing`).
- A `SITE_TYPE` that names no declared site builds the `all` site, but `redirects.ts` reads the variable itself and writes the sub-site fallback file (`Redirects.UndeclaredSiteTypeRedirects`).
- An image path written without `./` is matched against the glob by its tail alone (`Images.BareNameMatchesLongerName`).
- `unslugify` followed by `slugify` does not give every slug back under JavaScript's case maps. `slugify(unslugify("ı"))` is `"i"`: the dotless `ı` upper-cases to `I`, which lowers to `i`. `ſ`, `µ` and `ς` behave alike. `Slugify.SlugifyUnslugify` therefore asks only that the slug's own characters lower back from their upper case (`Slugify.RoundTrips`).
