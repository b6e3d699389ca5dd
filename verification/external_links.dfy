/** `src/plugins/rehype-external-links.js`: links to other sites open in a new tab, carry
    `rel="noopener noreferrer"` and get a small mark after their text. URL parsing (`new URL`)
    is a parameter; the tree walk of `unist-util-visit` is written out. */
module ExternalLinks {
  import opened Strings
  import opened Hast

  /** `DEFAULT_MARK`: a space and U+29C9. */
  const DEFAULT_MARK: string := " \U{29C9}"
  const THIN_SPACE: string := "\U{2009}"
  const MARK_CLASS: string := "external-link-mark"

  /** The two parts of a parsed URL the plugin reads. */
  datatype Url = Url(protocol: string, origin: string)

  /** `new URL(s)` and `new URL(s, base)`; `None` where the constructor throws. */
  datatype UrlParser = UrlParser(parse: string -> Option<Url>, resolve: (string, string) -> Option<Url>)

  /** `getOrigin(site)`: no origin for an absent or empty site or one that does not parse. */
  function GetOrigin(site: Option<string>, up: UrlParser): (r: Option<string>)
    ensures site.None? || site.value == "" ==> r.None?
    ensures r.Some? ==> site.Some? && up.parse(site.value).Some? && up.parse(site.value).value.origin == r.value
    ensures site.Some? && site.value != "" && up.parse(site.value).Some? ==> r.Some?
  {
    if site.None? || site.value == "" then None
    else
      match up.parse(site.value)
      case None => None
      case Some(u) => Some(u.origin)
  }

  predicate IsAsciiLetter(c: char) {
    ('a' <= c <= 'z') || ('A' <= c <= 'Z')
  }

  /** `[a-zA-Z+.-]` */
  predicate IsSchemeChar(c: char) {
    IsAsciiLetter(c) || c == '+' || c == '.' || c == '-'
  }

  /** The end of the run of scheme characters starting at `i`. */
  function SchemeRunEnd(s: string, i: nat): (r: nat)
    requires i <= |s|
    ensures i <= r <= |s|
    ensures forall j :: i <= j < r ==> IsSchemeChar(s[j])
    ensures r < |s| ==> !IsSchemeChar(s[r])
    decreases |s| - i
  {
    if i == |s| || !IsSchemeChar(s[i]) then i else SchemeRunEnd(s, i + 1)
  }

  /** `/^[a-zA-Z][a-zA-Z+.-]*:/.test(s)` */
  predicate HasScheme(s: string) {
    |s| > 0 && IsAsciiLetter(s[0]) && var n := SchemeRunEnd(s, 1); n < |s| && s[n] == ':'
  }

  /** The regular expression read literally: a letter, scheme characters, a colon. */
  ghost predicate SchemeRegex(s: string) {
    exists n :: 1 <= n < |s| && IsAsciiLetter(s[0]) && (forall j :: 1 <= j < n ==> IsSchemeChar(s[j])) && s[n] == ':'
  }

  lemma HasSchemeMatchesRegex(s: string)
    ensures HasScheme(s) <==> SchemeRegex(s)
  {
    if SchemeRegex(s) {
      var n :| 1 <= n < |s| && IsAsciiLetter(s[0]) && (forall j :: 1 <= j < n ==> IsSchemeChar(s[j])) && s[n] == ':';
      var m := SchemeRunEnd(s, 1);
      assert !IsSchemeChar(s[n]);
      assert m <= n;
      assert m == n;
    }
  }

  /** The prefixes that mark a link as internal without parsing it (lines 38 to 40). */
  predicate LocalPrefix(href: string) {
    StartsWith(href, "#") || StartsWith(href, "mailto:") || StartsWith(href, "tel:")
    || StartsWith(href, "/") || StartsWith(href, "./") || StartsWith(href, "../")
  }

  /** The parsing part of `isExternalLink` (lines 45 to 57): the href, resolved against the site
      origin or `http://localhost`, must be an http or https URL on another origin. */
  predicate ResolvesExternal(href: string, siteOrigin: Option<string>, up: UrlParser) {
    var base := if siteOrigin.Some? then siteOrigin.value else "http://localhost";
    match up.resolve(href, base)
    case None => false
    case Some(u) =>
      (u.protocol == "http:" || u.protocol == "https:")
      && !(siteOrigin.Some? && siteOrigin.value != "" && u.origin == siteOrigin.value)
  }

  /** `isExternalLink(href, siteOrigin)` as written. */
  predicate IsExternalLink(href: string, siteOrigin: Option<string>, up: UrlParser) {
    if LocalPrefix(href) then false
    else if !HasScheme(href) && !StartsWith(href, "//") then false
    else ResolvesExternal(href, siteOrigin, up)
  }

  /** The `//` test of line 41 never decides anything: every `//` link has already been
      declared internal by the `/` test of line 40, so only links with a scheme are parsed. */
  lemma ProtocolRelativeTestIsDead(href: string, siteOrigin: Option<string>, up: UrlParser)
    ensures IsExternalLink(href, siteOrigin, up) <==>
              !LocalPrefix(href) && HasScheme(href) && ResolvesExternal(href, siteOrigin, up)
    ensures StartsWith(href, "//") ==> !IsExternalLink(href, siteOrigin, up)
  {
    if StartsWith(href, "//") {
      assert href[..1] == "/";
    }
  }

  /** The prefixes of lines 38 to 40 with a protocol-relative `//` link left to the parser. */
  predicate LocalPrefixFixed(href: string) {
    StartsWith(href, "#") || StartsWith(href, "mailto:") || StartsWith(href, "tel:")
    || (StartsWith(href, "/") && !StartsWith(href, "//")) || StartsWith(href, "./") || StartsWith(href, "../")
  }

  /** `isExternalLink` as its line 41 intends: a `//` link is parsed like one with a scheme. */
  predicate IsExternalLinkFixed(href: string, siteOrigin: Option<string>, up: UrlParser) {
    if LocalPrefixFixed(href) then false
    else if !HasScheme(href) && !StartsWith(href, "//") then false
    else ResolvesExternal(href, siteOrigin, up)
  }

  /** The corrected test decides a `//` link by where it resolves, and agrees with the one as
      written on every other link. */
  lemma FixedClassifiesProtocolRelative(href: string, siteOrigin: Option<string>, up: UrlParser)
    ensures StartsWith(href, "//") ==>
              (IsExternalLinkFixed(href, siteOrigin, up) <==> ResolvesExternal(href, siteOrigin, up))
    ensures !StartsWith(href, "//") ==>
              (IsExternalLinkFixed(href, siteOrigin, up) <==> IsExternalLink(href, siteOrigin, up))
  {
    if StartsWith(href, "//") {
      assert href[0] == '/' && href[1] == '/';
      assert !StartsWith(href, "#") && !StartsWith(href, "mailto:") && !StartsWith(href, "tel:");
      assert !StartsWith(href, "./") && !StartsWith(href, "../");
    }
  }

  /** A parser that puts every link on `https://cdn.example.org`. */
  function ExampleResolve(href: string, base: string): Option<Url> {
    Some(Url("https:", "https://cdn.example.org"))
  }

  function ExampleParse(s: string): Option<Url> {
    Some(Url("https:", "https://blog.example.com"))
  }

  /** On a site at `https://blog.example.com`, a link to `//cdn.example.org/a.png` resolves to
      another origin, yet the test as written calls it internal; the corrected one does not. */
  lemma ProtocolRelativeLinkExample()
    ensures var up := UrlParser(ExampleParse, ExampleResolve);
            var origin := GetOrigin(Some("https://blog.example.com"), up);
            && ResolvesExternal("//cdn.example.org/a.png", origin, up)
            && !IsExternalLink("//cdn.example.org/a.png", origin, up)
            && IsExternalLinkFixed("//cdn.example.org/a.png", origin, up)
  {
    var up := UrlParser(ExampleParse, ExampleResolve);
    var href := "//cdn.example.org/a.png";
    var origin := GetOrigin(Some("https://blog.example.com"), up);
    assert origin == Some("https://blog.example.com");
    ProtocolRelativeTestIsDead(href, origin, up);
    FixedClassifiesProtocolRelative(href, origin, up);
    assert StartsWith(href, "//") by { assert href[..2] == "//"; }
  }

  /** No value occurs twice, as in the insertion order of a JavaScript `Set`. */
  predicate Distinct(xs: seq<string>) {
    forall i, j :: 0 <= i < j < |xs| ==> xs[i] != xs[j]
  }

  /** `set.add(x)` on the insertion order of a `Set`. */
  function AddOne(acc: seq<string>, x: string): (r: seq<string>)
    ensures Distinct(acc) ==> Distinct(r)
    ensures |r| >= |acc| && r[..|acc|] == acc
    ensures forall v :: v in r <==> v in acc || v == x
  {
    if x in acc then acc else acc + [x]
  }

  /** Adding every value of `xs` in turn. */
  function AddAll(acc: seq<string>, xs: seq<string>): (r: seq<string>)
    ensures Distinct(acc) ==> Distinct(r)
    ensures |r| >= |acc| && r[..|acc|] == acc
    ensures forall v :: v in r <==> v in acc || v in xs
    ensures forall i :: |acc| <= i < |r| ==> r[i] in xs && r[i] !in acc
    decreases |xs|
  {
    if |xs| == 0 then acc
    else
      var init := xs[..|xs| - 1];
      assert xs == init + [xs[|xs| - 1]];
      var r0 := AddAll(acc, init);
      var r := AddOne(r0, xs[|xs| - 1]);
      assert r[..|acc|] == r0[..|r0|][..|acc|];
      r
  }

  /** The position of the first occurrence of `v` in `xs`. */
  function FirstIndex(xs: seq<string>, v: string): (r: nat)
    requires v in xs
    ensures r < |xs| && xs[r] == v && v !in xs[..r]
    ensures forall j :: 0 <= j < r ==> xs[j] != v
  {
    if xs[0] == v then 0
    else
      var k := FirstIndex(xs[1..], v);
      assert xs[..k + 1] == [xs[0]] + xs[1..][..k];
      k + 1
  }

  lemma FirstIndexOfPrefix(xs: seq<string>, n: nat, v: string)
    requires n <= |xs| && v in xs[..n]
    ensures v in xs && FirstIndex(xs, v) == FirstIndex(xs[..n], v)
  {
    var k := FirstIndex(xs[..n], v);
    var m := FirstIndex(xs, v);
    assert xs[k] == xs[..n][k] == v;
    assert forall j :: 0 <= j < k ==> xs[j] == xs[..n][j];
  }

  /** From position `from` on, the values of `r` occur in `xs`, in the order of their first
      occurrence there. */
  predicate InFirstOccurrenceOrder(r: seq<string>, from: nat, xs: seq<string>) {
    forall i, j :: from <= i < j < |r| ==> r[i] in xs && r[j] in xs && FirstIndex(xs, r[i]) < FirstIndex(xs, r[j])
  }

  /** The values added by `AddAll` keep the order in which they first occur in `xs`. */
  lemma {:induction false} AddAllOrder(acc: seq<string>, xs: seq<string>)
    ensures InFirstOccurrenceOrder(AddAll(acc, xs), |acc|, xs)
    decreases |xs|
  {
    var r := AddAll(acc, xs);
    if |xs| > 0 {
      var n := |xs| - 1;
      var init := xs[..n];
      var x := xs[n];
      assert xs == init + [x];
      var r0 := AddAll(acc, init);
      AddAllOrder(acc, init);
      assert forall i :: |acc| <= i < |r0| ==> r0[i] in init;
      if x !in r0 {
        assert x !in init;
        AppendOrder(r0, |acc|, xs);
        assert r == r0 + [x];
      } else {
        KeepOrder(r0, |acc|, xs);
      }
    }
  }

  /** Values taken from a prefix of `xs` have the same first occurrence in `xs`. */
  lemma SameFirstIndex(r0: seq<string>, from: nat, xs: seq<string>)
    requires |xs| > 0
    requires forall i :: from <= i < |r0| ==> r0[i] in xs[..|xs| - 1]
    ensures forall i :: from <= i < |r0| ==>
              r0[i] in xs && FirstIndex(xs, r0[i]) == FirstIndex(xs[..|xs| - 1], r0[i])
  {
    forall i | from <= i < |r0|
      ensures r0[i] in xs && FirstIndex(xs, r0[i]) == FirstIndex(xs[..|xs| - 1], r0[i])
    {
      FirstIndexOfPrefix(xs, |xs| - 1, r0[i]);
    }
  }

  lemma KeepOrder(r0: seq<string>, from: nat, xs: seq<string>)
    requires |xs| > 0
    requires forall i :: from <= i < |r0| ==> r0[i] in xs[..|xs| - 1]
    requires InFirstOccurrenceOrder(r0, from, xs[..|xs| - 1])
    ensures InFirstOccurrenceOrder(r0, from, xs)
  {
    SameFirstIndex(r0, from, xs);
  }

  lemma AppendOrder(r0: seq<string>, from: nat, xs: seq<string>)
    requires |xs| > 0 && xs[|xs| - 1] !in xs[..|xs| - 1]
    requires forall i :: from <= i < |r0| ==> r0[i] in xs[..|xs| - 1]
    requires InFirstOccurrenceOrder(r0, from, xs[..|xs| - 1])
    ensures InFirstOccurrenceOrder(r0 + [xs[|xs| - 1]], from, xs)
  {
    var n := |xs| - 1;
    var x := xs[n];
    var r := r0 + [x];
    SameFirstIndex(r0, from, xs);
    FirstIndexOfNew(xs, n);
    forall i, j | from <= i < j < |r|
      ensures r[i] in xs && r[j] in xs && FirstIndex(xs, r[i]) < FirstIndex(xs, r[j])
    {
      var a := r0[i];
      assert r[i] == a;
      assert FirstIndex(xs, a) == FirstIndex(xs[..n], a) < n;
      if j < |r0| {
        var b := r0[j];
        assert r[j] == b;
        assert FirstIndex(xs[..n], a) < FirstIndex(xs[..n], b);
      } else {
        assert r[j] == x;
      }
    }
  }

  /** A value that does not occur before position `n` first occurs at `n`. */
  lemma FirstIndexOfNew(xs: seq<string>, n: nat)
    requires n < |xs| && xs[n] !in xs[..n]
    ensures FirstIndex(xs, xs[n]) == n
  {
    var k := FirstIndex(xs, xs[n]);
    assert k <= n;
  }

  /** `value.trim()` is not empty: the value is not blank. */
  predicate NotBlank(v: string) {
    Trim(v) != ""
  }

  /** The string values of a `rel` array that are not blank, in order. */
  function ArrayValues(items: seq<Value>): (r: seq<string>)
    ensures forall v :: v in r ==> NotBlank(v)
  {
    if |items| == 0 then []
    else
      var rest := ArrayValues(items[1..]);
      if items[0].Str? && NotBlank(items[0].s) then [items[0].s] + rest else rest
  }

  /** The values kept from an array are exactly its non-blank strings. */
  lemma {:induction false} ArrayValuesMembers(items: seq<Value>)
    ensures forall v :: v in ArrayValues(items) <==> Str(v) in items && NotBlank(v)
  {
    if |items| > 0 {
      assert forall x :: x in items <==> x == items[0] || x in items[1..];
      ArrayValuesMembers(items[1..]);
    }
  }

  /** The index after the run of non-whitespace starting at `i`. */
  function WordEnd(s: string, i: nat): (r: nat)
    requires i <= |s|
    ensures i <= r <= |s|
    ensures forall j :: i <= j < r ==> !IsSpace(s[j])
    ensures r < |s| ==> IsSpace(s[r])
    decreases |s| - i
  {
    if i == |s| || IsSpace(s[i]) then i else WordEnd(s, i + 1)
  }

  /** `s.split(/\s+/)` without its empty pieces: the maximal runs of non-whitespace. */
  function Words(s: string): (r: seq<string>)
    ensures forall i :: 0 <= i < |r| ==> IsWord(r[i])
    decreases |s|
  {
    if |s| == 0 then []
    else if IsSpace(s[0]) then Words(s[1..])
    else
      var n := WordEnd(s, 0);
      [s[..n]] + Words(s[n..])
  }

  /** A non-empty string without whitespace. */
  predicate IsWord(w: string) {
    |w| > 0 && forall j :: 0 <= j < |w| ==> !IsSpace(w[j])
  }

  /** A word has no whitespace, so it is not blank. */
  lemma WordNotBlank(w: string)
    requires IsWord(w)
    ensures NotBlank(w)
  {
    assert !IsSpace(w[0]);
  }

  /** Words joined by single spaces split back into the same words. */
  lemma {:induction false} WordsOfJoin(ws: seq<string>)
    requires forall i :: 0 <= i < |ws| ==> IsWord(ws[i])
    ensures Words(Join(ws, " ")) == ws
    decreases |ws|
  {
    if |ws| == 1 {
      var w := ws[0];
      assert Join(ws, " ") == w;
      assert WordEnd(w, 0) == |w|;
      assert w[|w|..] == [];
      assert w[..|w|] == w;
    } else if |ws| > 1 {
      var w := ws[0];
      var rest := Join(ws[1..], " ");
      var s := Join(ws, " ");
      assert s == w + " " + rest;
      assert forall j :: 0 <= j < |w| ==> s[j] == w[j];
      assert s[|w|] == ' ';
      var n := WordEnd(s, 0);
      assert n == |w|;
      assert s[..n] == w;
      assert s[n..] == " " + rest;
      assert (" " + rest)[1..] == rest;
      WordsOfJoin(ws[1..]);
    }
  }

  /** The values a `rel` property contributes: the non-blank strings of an array, the words of
      a string, nothing otherwise. */
  function RelCandidates(rel: Option<Value>): (r: seq<string>)
    ensures forall v :: v in r ==> NotBlank(v)
  {
    if rel.Some? && rel.value.List? then ArrayValues(rel.value.items)
    else if rel.Some? && rel.value.Str? then
      var ws := Words(rel.value.s);
      forall v | v in ws ensures NotBlank(v) { WordNotBlank(v); }
      ws
    else []
  }

  const REL_BASE: seq<string> := ["noopener", "noreferrer"]

  lemma BaseNotBlank()
    ensures forall v :: v in REL_BASE ==> NotBlank(v)
    ensures Distinct(REL_BASE)
  {
    assert IsWord("noopener") && IsWord("noreferrer");
    WordNotBlank("noopener");
    WordNotBlank("noreferrer");
  }

  /** `noopener` and `noreferrer`, then the values of `xs` in the order they first occur,
      each once. */
  function WithBase(xs: seq<string>): (r: seq<string>)
    ensures |r| >= 2 && r[..2] == REL_BASE
    ensures Distinct(r)
    ensures forall v :: v in r <==> v in REL_BASE || v in xs
  {
    BaseNotBlank();
    AddAll(REL_BASE, xs)
  }

  /** `buildRel(rel)`: `noopener`, `noreferrer`, then the values of `rel` in the order they
      first occur, each once, none blank. */
  function BuildRel(rel: Option<Value>): (r: seq<string>)
    ensures |r| >= 2 && r[0] == "noopener" && r[1] == "noreferrer"
    ensures Distinct(r)
    ensures forall v :: v in r ==> NotBlank(v)
    ensures forall v :: v in r <==> v in REL_BASE || v in RelCandidates(rel)
  {
    var r := WithBase(RelCandidates(rel));
    assert r[0] == r[..2][0] && r[1] == r[..2][1];
    BaseNotBlank();
    r
  }

  /** Beyond the first two, the values of `buildRel` appear in the order of their first
      occurrence in the `rel` property. */
  lemma BuildRelOrder(rel: Option<Value>)
    ensures InFirstOccurrenceOrder(BuildRel(rel), 2, RelCandidates(rel))
  {
    AddAllOrder(REL_BASE, RelCandidates(rel));
  }

  /** Adding values that are all present already changes nothing. */
  lemma {:induction false} AddAllKnown(acc: seq<string>, ys: seq<string>)
    requires forall y :: y in ys ==> y in acc
    ensures AddAll(acc, ys) == acc
    decreases |ys|
  {
    if |ys| > 0 {
      assert forall y :: y in ys[..|ys| - 1] ==> y in ys;
      AddAllKnown(acc, ys[..|ys| - 1]);
      assert ys[|ys| - 1] in ys;
    }
  }

  /** Adding the values of a distinct list that extends `acc` yields that list. */
  lemma {:induction false} AddAllExtension(acc: seq<string>, r: seq<string>, k: nat)
    requires Distinct(r) && |acc| <= k <= |r| && r[..|acc|] == acc
    ensures AddAll(acc, r[..k]) == r[..k]
    decreases k
  {
    if k == |acc| {
      AddAllKnown(acc, r[..k]);
    } else {
      assert r[..k][..k - 1] == r[..k - 1];
      AddAllExtension(acc, r, k - 1);
      assert r[k - 1] !in r[..k - 1];
      assert r[..k - 1] + [r[k - 1]] == r[..k];
    }
  }

  /** `buildRel` of its own result as an array gives that result back: rewriting a link a
      second time leaves its `rel` as it was. */
  lemma BuildRelStable(rel: Option<Value>)
    ensures BuildRel(Some(Strs(BuildRel(rel)))) == BuildRel(rel)
  {
    var r := BuildRel(rel);
    ArrayValuesOfStrs(r);
    WithBaseStable(r);
  }

  /** A distinct list that starts with the two base values is its own `WithBase`. */
  lemma WithBaseStable(r: seq<string>)
    requires Distinct(r) && |r| >= 2 && r[..2] == REL_BASE
    ensures WithBase(r) == r
  {
    AddAllExtension(REL_BASE, r, |r|);
    assert r[..|r|] == r;
  }

  lemma ArrayValuesOfStrs(xs: seq<string>)
    requires forall v :: v in xs ==> NotBlank(v)
    ensures ArrayValues(Strs(xs).items) == xs
  {
    ArrayValuesOfItems(Strs(xs).items, xs);
  }

  lemma {:induction false} ArrayValuesOfItems(items: seq<Value>, xs: seq<string>)
    requires |items| == |xs|
    requires forall i :: 0 <= i < |xs| ==> items[i] == Str(xs[i])
    requires forall v :: v in xs ==> NotBlank(v)
    ensures ArrayValues(items) == xs
    decreases |xs|
  {
    if |xs| > 0 {
      var it, ys := items[1..], xs[1..];
      assert xs == [xs[0]] + ys;
      assert forall i :: 0 <= i < |ys| ==> it[i] == items[i + 1] && ys[i] == xs[i + 1];
      assert forall v :: v in ys ==> v in xs;
      assert NotBlank(xs[0]) by { assert xs[0] in xs; }
      assert ArrayValues(items) == [xs[0]] + ArrayValues(it);
      ArrayValuesOfItems(it, ys);
    }
  }


  /** The `mark` option: a string, or any other value, truthy or not. */
  datatype Mark = MarkString(s: string) | MarkOther(truthy: bool)

  /** `const { mark = DEFAULT_MARK } = options`: only an absent option takes the default. */
  function MarkOption(mark: Option<Mark>): (r: Mark)
    ensures mark.None? ==> r == MarkString(DEFAULT_MARK)
    ensures mark.Some? ==> r == mark.value
  {
    if mark.Some? then mark.value else MarkString(DEFAULT_MARK)
  }

  /** `if (mark)`: the empty string and falsy values switch the mark off. */
  predicate MarkEnabled(m: Mark) {
    if m.MarkString? then m.s != "" else m.truthy
  }

  /** The text of the default mark once trimmed: U+29C9 alone. */
  lemma DefaultMarkTrimmed()
    ensures Trim(DEFAULT_MARK) == "\U{29C9}"
  {
    assert IsSpace(DEFAULT_MARK[0]) && !IsSpace(DEFAULT_MARK[1]);
    assert DEFAULT_MARK[1..] == "\U{29C9}";
    assert TrimStart(DEFAULT_MARK[1..]) == "\U{29C9}";
    assert TrimStart(DEFAULT_MARK) == "\U{29C9}";
  }

  /** `markText`: a string mark trimmed; any other value the trimmed default. */
  function MarkText(m: Mark): (r: string)
    ensures m.MarkString? ==> r == Trim(m.s)
    ensures !m.MarkString? ==> r == "\U{29C9}"
  {
    DefaultMarkTrimmed();
    if m.MarkString? then Trim(m.s) else Trim(DEFAULT_MARK)
  }

  /** `className?.includes(name)`: a substring of a string, an element of an array; any other
      value does not include it. */
  predicate ClassIncludes(v: Option<Value>, name: string) {
    v.Some? && ((v.value.Str? && Contains(v.value.s, name)) || ListIncludes(v, name))
  }

  /** A child that already is a mark: a `span` whose class includes `external-link-mark`. */
  predicate IsMarkNode(n: Node) {
    n.Element? && n.tagName == "span" && ClassIncludes(Prop(n.properties, "className"), MARK_CLASS)
  }

  predicate HasMark(cs: seq<Node>) {
    exists i :: 0 <= i < |cs| && IsMarkNode(cs[i])
  }

  /** The span `appendMark` adds: hidden from assistive technology, a thin space before the
      mark text. */
  function MarkSpan(t: string): (r: Node)
    ensures IsMarkNode(r)
  {
    var r := Element("span", map["className" := List([Str(MARK_CLASS)]), "ariaHidden" := Str("true")],
                     [Text(THIN_SPACE + t)]);
    assert Prop(r.properties, "className") == Some(List([Str(MARK_CLASS)]));
    r
  }

  /** `appendMark(node, mark)` on the children of a link: one mark span at the end, unless the
      mark text is blank or a mark is there already. */
  function AppendMark(cs: seq<Node>, m: Mark): (r: seq<Node>)
    ensures |cs| <= |r| <= |cs| + 1 && r[..|cs|] == cs
    ensures MarkText(m) != "" ==> HasMark(r)
    ensures |r| == |cs| + 1 ==> r[|cs|] == MarkSpan(MarkText(m)) && !HasMark(cs)
    ensures HasMark(cs) || MarkText(m) == "" ==> r == cs
  {
    var t := MarkText(m);
    if t == "" || HasMark(cs) then cs
    else
      var r := cs + [MarkSpan(t)];
      assert IsMarkNode(r[|cs|]);
      r
  }

  /** A second `appendMark` adds nothing. */
  lemma AppendMarkIdempotent(cs: seq<Node>, m: Mark)
    ensures AppendMark(AppendMark(cs, m), m) == AppendMark(cs, m)
  {
  }

  /** The element the visitor rewrites: an `a` whose `href` is a non-empty string that the
      classifier calls external. */
  predicate IsTargetLink(n: Node, external: string -> bool) {
    n.Element? && n.tagName == "a"
    && var href := Prop(n.properties, "href");
       href.Some? && href.value.Str? && href.value.s != "" && external(href.value.s)
  }

  /** The properties of a rewritten link: `target` and `rel` set, everything else copied. */
  function RewriteProps(props: map<string, Value>): (r: map<string, Value>)
    ensures Prop(r, "target") == Some(Str("_blank"))
    ensures Prop(r, "rel") == Some(Strs(BuildRel(Prop(props, "rel"))))
    ensures forall k :: k != "target" && k != "rel" ==> Prop(r, k) == Prop(props, k)
  {
    var rel := Strs(BuildRel(Prop(props, "rel")));
    SetTargetAndRel(props, rel);
    props["target" := Str("_blank")]["rel" := rel]
  }

  /** Setting `target` and `rel` leaves every other property as it was. */
  lemma SetTargetAndRel(props: map<string, Value>, rel: Value)
    ensures var r := props["target" := Str("_blank")]["rel" := rel];
            && Prop(r, "target") == Some(Str("_blank"))
            && Prop(r, "rel") == Some(rel)
            && forall k :: k != "target" && k != "rel" ==> Prop(r, k) == Prop(props, k)
  {
  }

  /** The children a rewritten link gains: the mark span, or nothing. */
  function AddedChildren(cs: seq<Node>, m: Mark): (r: seq<Node>)
    ensures |r| <= 1
    ensures |r| == 1 <==> MarkEnabled(m) && MarkText(m) != "" && !HasMark(cs)
    ensures |r| == 1 ==> r[0] == MarkSpan(MarkText(m))
    ensures MarkEnabled(m) ==> cs + r == AppendMark(cs, m)
  {
    if MarkEnabled(m) then
      var a := AppendMark(cs, m);
      assert a == a[..|cs|] + a[|cs|..];
      a[|cs|..]
    else []
  }

  /** `visit(tree, 'element', ...)`: every element, parents before their children, the
      children of a rewritten link including the mark it gained (which is left as it is, see
      `VisitMarkSpan`). */
  function Visit(n: Node, external: string -> bool, m: Mark): (r: Node)
    ensures r.Root? == n.Root? && r.Element? == n.Element?
    ensures n.Element? ==> r.tagName == n.tagName
    ensures n.Element? && !IsTargetLink(n, external) ==>
              r.properties == n.properties && |r.children| == |n.children|
    ensures n.Root? ==> |r.children| == |n.children|
    ensures n.Text? || n.Comment? ==> r == n
    decreases n, 1
  {
    match n
    case Root(cs) => Root(VisitAll(cs, external, m))
    case Element(tag, props, cs) =>
      if IsTargetLink(n, external) then
        Element(tag, RewriteProps(props), VisitAll(cs, external, m) + AddedChildren(cs, m))
      else Element(tag, props, VisitAll(cs, external, m))
    case Text(_) => n
    case Comment(_) => n
  }

  function VisitAll(cs: seq<Node>, external: string -> bool, m: Mark): (r: seq<Node>)
    ensures |r| == |cs|
    ensures forall i :: 0 <= i < |cs| ==> r[i] == Visit(cs[i], external, m)
    decreases cs, 0
  {
    if |cs| == 0 then [] else [Visit(cs[0], external, m)] + VisitAll(cs[1..], external, m)
  }

  lemma VisitAllConcat(a: seq<Node>, b: seq<Node>, external: string -> bool, m: Mark)
    ensures VisitAll(a + b, external, m) == VisitAll(a, external, m) + VisitAll(b, external, m)
  {
    var r := VisitAll(a + b, external, m);
    var l := VisitAll(a, external, m) + VisitAll(b, external, m);
    forall i | 0 <= i < |r| ensures r[i] == l[i] {
      if i < |a| {
        assert (a + b)[i] == a[i];
      } else {
        assert (a + b)[i] == b[i - |a|];
      }
    }
  }

  /** The mark span the visitor meets after adding it is left as it is. */
  lemma VisitMarkSpan(t: string, external: string -> bool, m: Mark)
    ensures Visit(MarkSpan(t), external, m) == MarkSpan(t)
  {
    var s := MarkSpan(t);
    assert !IsTargetLink(s, external);
    assert VisitAll(s.children, external, m) == s.children;
  }

  /** A mark stays a mark: the visitor does not rewrite spans. */
  lemma VisitPreservesMark(c: Node, external: string -> bool, m: Mark)
    requires IsMarkNode(c)
    ensures IsMarkNode(Visit(c, external, m))
  {
  }

  /** What the visitor does to a link it rewrites: `target="_blank"`, `rel` from `buildRel`,
      every other property (the `href` among them) kept, the children visited in place and
      followed by a mark when the mark is on and there was none. */
  lemma TargetLinkRewritten(n: Node, external: string -> bool, m: Mark)
    requires IsTargetLink(n, external)
    ensures var r := Visit(n, external, m);
            && r.Element? && r.tagName == "a"
            && Prop(r.properties, "target") == Some(Str("_blank"))
            && Prop(r.properties, "rel") == Some(Strs(BuildRel(Prop(n.properties, "rel"))))
            && (forall k :: k != "target" && k != "rel" ==> Prop(r.properties, k) == Prop(n.properties, k))
            && |n.children| <= |r.children| <= |n.children| + 1
            && r.children[..|n.children|] == VisitAll(n.children, external, m)
            && (MarkEnabled(m) && MarkText(m) != "" ==> HasMark(r.children))
            && (!MarkEnabled(m) || HasMark(n.children) ==> |r.children| == |n.children|)
  {
    VisitOfTarget(n, external, m);
    ChildrenOfTarget(n.children, external, m);
  }

  /** The node the visitor makes of a link it rewrites. */
  lemma VisitOfTarget(n: Node, external: string -> bool, m: Mark)
    requires IsTargetLink(n, external)
    ensures Visit(n, external, m)
            == Element(n.tagName, RewriteProps(n.properties),
                       VisitAll(n.children, external, m) + AddedChildren(n.children, m))
  {
  }

  /** The children of a rewritten link: the visited children, then the mark when one is added. */
  lemma ChildrenOfTarget(cs: seq<Node>, external: string -> bool, m: Mark)
    ensures var v := VisitAll(cs, external, m);
            var r := v + AddedChildren(cs, m);
            && |cs| <= |r| <= |cs| + 1
            && r[..|cs|] == v
            && (MarkEnabled(m) && MarkText(m) != "" ==> HasMark(r))
            && (!MarkEnabled(m) || HasMark(cs) ==> |r| == |cs|)
  {
    var v := VisitAll(cs, external, m);
    var extra := AddedChildren(cs, m);
    var r := v + extra;
    assert r[..|cs|] == v;
    if MarkEnabled(m) && MarkText(m) != "" {
      if |extra| == 1 {
        MarkAtEnd(v, extra);
      } else {
        MarkKept(cs, external, m, extra);
      }
    }
  }

  /** A rewritten link keeps its `target` and its `rel` when rewritten again. */
  lemma RewritePropsStable(props: map<string, Value>)
    ensures RewriteProps(RewriteProps(props)) == RewriteProps(props)
  {
    var x := Strs(BuildRel(Prop(props, "rel")));
    var p1 := RewriteProps(props);
    BuildRelStable(Prop(props, "rel"));
    UpdateUnchanged(p1, "target", Str("_blank"));
    UpdateUnchanged(p1, "rel", x);
  }

  lemma UpdateUnchanged(p: map<string, Value>, k: string, v: Value)
    requires k in p && p[k] == v
    ensures p[k := v] == p
  {
  }

  /** The children of a rewritten link gain no second mark. */
  lemma NoSecondMark(cs: seq<Node>, external: string -> bool, m: Mark)
    ensures var v := VisitAll(cs, external, m);
            AddedChildren(v + AddedChildren(cs, m), m) == []
  {
    var v := VisitAll(cs, external, m);
    var extra := AddedChildren(cs, m);
    if |extra| == 1 {
      MarkAtEnd(v, extra);
    } else if HasMark(cs) {
      MarkKept(cs, external, m, extra);
    }
  }

  lemma MarkAtEnd(v: seq<Node>, extra: seq<Node>)
    requires |extra| == 1 && IsMarkNode(extra[0])
    ensures HasMark(v + extra)
  {
    assert (v + extra)[|v|] == extra[0];
  }

  lemma MarkKept(cs: seq<Node>, external: string -> bool, m: Mark, extra: seq<Node>)
    requires HasMark(cs)
    ensures HasMark(VisitAll(cs, external, m) + extra)
  {
    var v := VisitAll(cs, external, m);
    var i :| 0 <= i < |cs| && IsMarkNode(cs[i]);
    VisitPreservesMark(cs[i], external, m);
    assert (v + extra)[i] == v[i];
  }

  /** Running the plugin twice gives the tree of running it once. */
  lemma {:induction false} VisitIdempotent(n: Node, external: string -> bool, m: Mark)
    ensures Visit(Visit(n, external, m), external, m) == Visit(n, external, m)
    decreases n, 1
  {
    match n
    case Root(cs) =>
      VisitAllIdempotent(cs, external, m);
    case Element(tag, props, cs) =>
      VisitAllIdempotent(cs, external, m);
      if IsTargetLink(n, external) {
        RewrittenLinkIdempotent(n, external, m);
      } else {
        assert Visit(n, external, m) == Element(tag, props, VisitAll(cs, external, m));
      }
    case Text(_) =>
    case Comment(_) =>
  }

  /** The step of `VisitIdempotent` for a rewritten link, given its children. */
  lemma RewrittenLinkIdempotent(n: Node, external: string -> bool, m: Mark)
    requires IsTargetLink(n, external)
    requires VisitAll(VisitAll(n.children, external, m), external, m) == VisitAll(n.children, external, m)
    ensures Visit(Visit(n, external, m), external, m) == Visit(n, external, m)
  {
    var v := VisitAll(n.children, external, m);
    var extra := AddedChildren(n.children, m);
    var n1 := Element(n.tagName, RewriteProps(n.properties), v + extra);
    VisitOfTarget(n, external, m);
    assert IsTargetLink(n1, external) by {
      assert Prop(n1.properties, "href") == Prop(n.properties, "href");
    }
    VisitOfTarget(n1, external, m);
    RewritePropsStable(n.properties);
    ChildrenStable(n.children, external, m);
  }

  /** Visiting the children of a rewritten link again, and appending again, changes nothing
      once the visited children are stable. */
  lemma ChildrenStable(cs: seq<Node>, external: string -> bool, m: Mark)
    requires VisitAll(VisitAll(cs, external, m), external, m) == VisitAll(cs, external, m)
    ensures var c1 := VisitAll(cs, external, m) + AddedChildren(cs, m);
            VisitAll(c1, external, m) + AddedChildren(c1, m) == c1
  {
    var v := VisitAll(cs, external, m);
    var extra := AddedChildren(cs, m);
    NoSecondMark(cs, external, m);
    VisitAllConcat(v, extra, external, m);
    if |extra| == 1 {
      VisitMarkSpan(MarkText(m), external, m);
      assert VisitAll(extra, external, m) == extra;
    }
  }

  lemma {:induction false} VisitAllIdempotent(cs: seq<Node>, external: string -> bool, m: Mark)
    ensures VisitAll(VisitAll(cs, external, m), external, m) == VisitAll(cs, external, m)
    decreases cs, 0
  {
    var v := VisitAll(cs, external, m);
    forall i | 0 <= i < |cs|
      ensures VisitAll(v, external, m)[i] == v[i]
    {
      VisitIdempotent(cs[i], external, m);
    }
  }

  /** The plugin as written, for a site and a `mark` option. */
  function RehypeExternalLinks(tree: Node, site: Option<string>, mark: Option<Mark>, up: UrlParser): (r: Node)
    ensures r.Root? == tree.Root?
  {
    var origin := GetOrigin(site, up);
    Visit(tree, href => IsExternalLink(href, origin, up), MarkOption(mark))
  }

  /** The plugin with the corrected link test. */
  function RehypeExternalLinksFixed(tree: Node, site: Option<string>, mark: Option<Mark>, up: UrlParser): (r: Node)
    ensures r.Root? == tree.Root?
  {
    var origin := GetOrigin(site, up);
    Visit(tree, href => IsExternalLinkFixed(href, origin, up), MarkOption(mark))
  }

  /** A page holding one protocol-relative link to another host. */
  function ExampleLink(): Node {
    Element("a", map["href" := Str("//cdn.example.org/a.png")], [Text("CDN")])
  }

  /** On `https://blog.example.com` the plugin as written leaves the link to
      `//cdn.example.org/a.png` as it is; the corrected one opens it in a new tab. */
  lemma ProtocolRelativeTreeExample()
    ensures var up := UrlParser(ExampleParse, ExampleResolve);
            var site := Some("https://blog.example.com");
            && RehypeExternalLinks(Root([ExampleLink()]), site, None, up) == Root([ExampleLink()])
            && Prop(RehypeExternalLinksFixed(Root([ExampleLink()]), site, None, up).children[0].properties, "target") == Some(Str("_blank"))
  {
    var up := UrlParser(ExampleParse, ExampleResolve);
    var site := Some("https://blog.example.com");
    var origin := GetOrigin(site, up);
    var href := "//cdn.example.org/a.png";
    ProtocolRelativeLinkExample();
    var asWritten: string -> bool := h => IsExternalLink(h, origin, up);
    var fixed: string -> bool := h => IsExternalLinkFixed(h, origin, up);
    var link := ExampleLink();
    assert Prop(link.properties, "href") == Some(Str(href));
    assert !IsTargetLink(link, asWritten);
    assert IsTargetLink(link, fixed);
    var m := MarkOption(None);
    assert VisitAll(link.children, asWritten, m) == link.children;
    assert Visit(link, asWritten, m) == link;
    assert VisitAll([link], asWritten, m) == [link];
    TargetLinkRewritten(link, fixed, m);
    assert VisitAll([link], fixed, m)[0] == Visit(link, fixed, m);
  }
}
