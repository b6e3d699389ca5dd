/** `src/integrations/redirects.ts`: the `_redirects` file written after a build. The `all`
    site redirects the bare URL of every category and tag listing to its first page; every
    other site sends what it does not have to the `all` site. The build output is given as
    the listings of its `categories` and `tags` directories. */
module Redirects {
  import opened Strings
  import opened Sites
  import opened SiteConfig

  /** A name returned by `readdirSync`, with what `statSync(...).isDirectory()` says of it. */
  datatype DirEntry = DirEntry(name: string, isDirectory: bool)

  /** The names of the sub-directories of a directory, in listing order; a missing directory
      (`None`) has none. */
  function DirNames(listing: Option<seq<DirEntry>>): (r: seq<string>)
    ensures listing.None? ==> r == []
    ensures listing.Some? ==> |r| <= |listing.value|
    ensures listing.Some? ==>
              forall n :: n in r <==> exists e :: e in listing.value && e.isDirectory && e.name == n
  {
    if listing.None? then [] else Directories(listing.value)
  }

  function Directories(entries: seq<DirEntry>): (r: seq<string>)
    ensures |r| <= |entries|
    ensures forall n :: n in r <==> exists e :: e in entries && e.isDirectory && e.name == n
  {
    if |entries| == 0 then []
    else
      assert forall e :: e in entries <==> e == entries[0] || e in entries[1..];
      var rest := Directories(entries[1..]);
      if entries[0].isDirectory then [entries[0].name] + rest else rest
  }

  /** Listing order is kept: the directories of a concatenation are those of each part, in
      turn. */
  lemma {:induction false} DirectoriesConcat(a: seq<DirEntry>, b: seq<DirEntry>)
    ensures Directories(a + b) == Directories(a) + Directories(b)
  {
    if |a| == 0 {
      assert a + b == b;
    } else {
      assert (a + b)[0] == a[0];
      assert (a + b)[1..] == a[1..] + b;
      DirectoriesConcat(a[1..], b);
    }
  }

  /** `/<section>/<name>/1/`, the first page of a listing. */
  function FirstPage(section: string, name: string): string {
    "/" + section + "/" + name + "/1/"
  }

  /** The two rules of one directory: with and without the trailing slash. */
  function DirRules(section: string, name: string): (r: seq<string>)
    ensures |r| == 2
  {
    ["/" + section + "/" + name + " " + FirstPage(section, name) + " 301",
     "/" + section + "/" + name + "/ " + FirstPage(section, name) + " 301"]
  }

  /** The rules of a section, two per directory, in listing order. */
  function SectionRules(section: string, names: seq<string>): (r: seq<string>)
    ensures |r| == 2 * |names|
    ensures forall i :: 0 <= i < |names| ==> r[2 * i..2 * i + 2] == DirRules(section, names[i])
  {
    if |names| == 0 then []
    else
      var rest := SectionRules(section, names[1..]);
      var r := DirRules(section, names[0]) + rest;
      assert forall i :: 1 <= i < |names| ==> r[2 * i..2 * i + 2] == rest[2 * (i - 1)..2 * (i - 1) + 2];
      r
  }

  const PAGINATION_HEADER: string := "# Pagination redirects"

  /** The lines `generatePaginationRedirects` joins: the header, the category rules, the tag
      rules, and an empty last line. */
  function PaginationLines(categories: Option<seq<DirEntry>>, tags: Option<seq<DirEntry>>): (r: seq<string>)
    ensures |r| == 2 + 2 * |DirNames(categories)| + 2 * |DirNames(tags)|
    ensures r[0] == PAGINATION_HEADER && r[|r| - 1] == ""
  {
    [PAGINATION_HEADER] + SectionRules("categories", DirNames(categories))
      + SectionRules("tags", DirNames(tags)) + [""]
  }

  /** `generatePaginationRedirects(dir)` */
  function GeneratePaginationRedirects(categories: Option<seq<DirEntry>>, tags: Option<seq<DirEntry>>): (r: string)
    ensures StartsWith(r, PAGINATION_HEADER) && EndsWith(r, "\n")
  {
    var lines := PaginationLines(categories, tags);
    JoinEnds(lines, "\n");
    Join(lines, "\n")
  }

  /** Joining at least two pieces starts with the first and ends with the separator followed
      by the last. */
  lemma {:induction false} JoinEnds(parts: seq<string>, sep: string)
    requires |parts| >= 2
    ensures StartsWith(Join(parts, sep), parts[0])
    ensures EndsWith(Join(parts, sep), sep + parts[|parts| - 1])
    decreases |parts|
  {
    var rest := Join(parts[1..], sep);
    assert Join(parts, sep) == parts[0] + (sep + rest);
    StartsWithConcat(parts[0], sep + rest);
    if |parts| == 2 {
      EndsWithConcat(parts[0], sep + parts[1]);
    } else {
      JoinEnds(parts[1..], sep);
      var tail := sep + parts[|parts| - 1];
      assert Join(parts, sep)[|Join(parts, sep)| - |tail|..] == rest[|rest| - |tail|..];
    }
  }

  /** No rule line breaks when neither the section nor a name does. */
  lemma {:induction false} SectionRulesOneLine(section: string, names: seq<string>)
    requires '\n' !in section && forall n :: n in names ==> '\n' !in n
    ensures forall l :: l in SectionRules(section, names) ==> '\n' !in l
  {
    if |names| > 0 {
      assert names[0] in names;
      assert forall n :: n in names[1..] ==> n in names;
      SectionRulesOneLine(section, names[1..]);
      var r := SectionRules(section, names);
      assert r == DirRules(section, names[0]) + SectionRules(section, names[1..]);
    }
  }

  /** When no directory name contains a line break, the file reads back, line by line, as the
      header, two rules per category directory, two per tag directory, and a final empty line. */
  lemma PaginationFileLines(categories: Option<seq<DirEntry>>, tags: Option<seq<DirEntry>>)
    requires forall n :: n in DirNames(categories) ==> '\n' !in n
    requires forall n :: n in DirNames(tags) ==> '\n' !in n
    ensures Split(GeneratePaginationRedirects(categories, tags), '\n') == PaginationLines(categories, tags)
  {
    var c := SectionRules("categories", DirNames(categories));
    var t := SectionRules("tags", DirNames(tags));
    SectionRulesOneLine("categories", DirNames(categories));
    SectionRulesOneLine("tags", DirNames(tags));
    var lines := PaginationLines(categories, tags);
    assert lines == [PAGINATION_HEADER] + c + t + [""];
    assert forall i :: 0 <= i < |lines| ==> lines[i] in [PAGINATION_HEADER] + [""] || lines[i] in c || lines[i] in t;
    JoinSplit(lines, '\n');
  }

  /** `process.env.SITE_TYPE || 'all'`; the empty string stands for an unset variable. */
  function RedirectSiteType(siteTypeEnv: string): (r: string)
    ensures siteTypeEnv == "" ==> r == ALL_KEY
    ensures siteTypeEnv != "" ==> r == siteTypeEnv
  {
    if siteTypeEnv == "" then ALL_KEY else siteTypeEnv
  }

  /** The comment line of a non-`all` site's file. */
  function FallbackComment(siteType: string): string {
    "# " + siteType + " site: redirect 404 to ALL site"
  }

  /** The catch-all rule: every path, with a 302, to the same path on the `all` site. */
  function FallbackRule(allUrl: string): string {
    "/* " + allUrl + "/:splat 302"
  }

  /** The lines of a non-`all` site's file. */
  function FallbackLines(siteType: string, allUrl: string): seq<string> {
    [FallbackComment(siteType), FallbackRule(allUrl), ""]
  }

  /** The comment line and the catch-all rule, each ended by a line break. */
  function FallbackContent(siteType: string, allUrl: string): (r: string)
    ensures StartsWith(r, "# " + siteType + " site") && EndsWith(r, "\n")
  {
    var head := "# " + siteType + " site";
    var r := FallbackComment(siteType) + "\n" + FallbackRule(allUrl) + "\n";
    assert FallbackComment(siteType) == head + ": redirect 404 to ALL site";
    assert r[..|head|] == FallbackComment(siteType)[..|head|];
    r
  }

  /** The content the `astro:build:done` hook writes to `_redirects`. */
  function RedirectsContent(sites: seq<SiteDef>, siteTypeEnv: string, categories: Option<seq<DirEntry>>,
                            tags: Option<seq<DirEntry>>): (r: string)
    requires WellFormed(sites)
    ensures r != "" && EndsWith(r, "\n")
    ensures RedirectSiteType(siteTypeEnv) == ALL_KEY ==> StartsWith(r, PAGINATION_HEADER)
    ensures RedirectSiteType(siteTypeEnv) != ALL_KEY ==> StartsWith(r, "# " + siteTypeEnv + " site")
  {
    var siteType := RedirectSiteType(siteTypeEnv);
    if siteType == ALL_KEY then GeneratePaginationRedirects(categories, tags)
    else FallbackContent(siteType, AllSite(sites).url)
  }

  /** The `all` site's file is exactly the pagination rules, line for line. */
  lemma AllFileLines(sites: seq<SiteDef>, siteTypeEnv: string, categories: Option<seq<DirEntry>>,
                     tags: Option<seq<DirEntry>>)
    requires WellFormed(sites)
    requires RedirectSiteType(siteTypeEnv) == ALL_KEY
    requires forall n :: n in DirNames(categories) ==> '\n' !in n
    requires forall n :: n in DirNames(tags) ==> '\n' !in n
    ensures Split(RedirectsContent(sites, siteTypeEnv, categories, tags), '\n') == PaginationLines(categories, tags)
  {
    PaginationFileLines(categories, tags);
  }

  /** A non-`all` site's file is exactly the comment line, the catch-all rule to the `all`
      site's URL, and a final empty line; the directory listings play no part. */
  lemma FallbackFileLines(sites: seq<SiteDef>, siteTypeEnv: string, categories: Option<seq<DirEntry>>,
                          tags: Option<seq<DirEntry>>)
    requires WellFormed(sites)
    requires siteTypeEnv != "" && siteTypeEnv != ALL_KEY
    requires '\n' !in siteTypeEnv && '\n' !in AllSite(sites).url
    ensures Split(RedirectsContent(sites, siteTypeEnv, categories, tags), '\n')
            == FallbackLines(siteTypeEnv, AllSite(sites).url)
  {
    FallbackLinesRoundTrip(siteTypeEnv, AllSite(sites).url);
  }

  lemma FallbackLinesRoundTrip(siteType: string, allUrl: string)
    requires '\n' !in siteType && '\n' !in allUrl
    ensures Split(FallbackContent(siteType, allUrl), '\n') == FallbackLines(siteType, allUrl)
  {
    var lines := FallbackLines(siteType, allUrl);
    var a := FallbackComment(siteType);
    var b := FallbackRule(allUrl);
    assert '\n' !in a && '\n' !in b;
    assert Join([""], "\n") == "";
    assert Join([b, ""], "\n") == b + "\n";
    assert Join(lines, "\n") == a + "\n" + (b + "\n");
    assert a + "\n" + (b + "\n") == FallbackContent(siteType, allUrl);
    JoinSplit(lines, '\n');
  }

  /** The hook reads `SITE_TYPE` without checking it against the site table: a value the table
      does not declare builds the `all` site, yet its file is the catch-all redirect to the
      `all` site rather than the pagination rules. */
  lemma UndeclaredSiteTypeRedirects(sites: seq<SiteDef>, env: Env, categories: Option<seq<DirEntry>>,
                                    tags: Option<seq<DirEntry>>)
    requires WellFormed(sites) && env.siteType != "" && env.siteType !in Keys(sites)
    ensures GetSiteType(sites, env) == ALL_KEY
    ensures RedirectsContent(sites, env.siteType, categories, tags) == FallbackContent(env.siteType, AllSite(sites).url)
  {
  }
}
