/** `src/integrations/ogpImages.ts`: the integration that keeps one generated OGP image per
    post without a thumbnail. The content directories are trees of files given as values; the
    image directory and the manifest are the `Store` of `OgpGenerator`. The front-matter reader
    is the parameter `parse`; the integration reads with `Frontmatter.ParseFrontmatter`. */
module OgpImages {
  import opened Strings
  import opened OgpGenerator

  /** A directory entry as `readdirSync(dir, { withFileTypes: true })` lists it. */
  datatype Node = File(name: string, content: string) | Folder(name: string, children: seq<Node>)

  /** A file below a content root: its path relative to the root, its own name and its text. */
  datatype FileRec = FileRec(relPath: string, name: string, content: string)

  /** `{ slug, title, hasThumbnail }` */
  datatype PostInfo = PostInfo(slug: string, title: string, hasThumbnail: bool)

  /** The path of a file ends in its name, right after a `/` or at the root. */
  predicate NameAtEnd(f: FileRec) {
    EndsWith(f.relPath, f.name)
    && (|f.relPath| == |f.name| || f.relPath[|f.relPath| - |f.name| - 1] == '/')
  }

  /** A directory prefix: empty at the root, otherwise ending in `/`. */
  predicate IsDirPrefix(prefix: string) {
    |prefix| == 0 || prefix[|prefix| - 1] == '/'
  }

  /** Every file below `nodes`, in listing order and depth first, with the path
      `join(dir, entry.name)` relative to the root; `prefix` is the path of `nodes`. */
  function Files(nodes: seq<Node>, prefix: string): (r: seq<FileRec>)
    requires IsDirPrefix(prefix)
    ensures forall i :: 0 <= i < |r| ==> NameAtEnd(r[i]) && StartsWith(r[i].relPath, prefix)
    decreases nodes
  {
    if |nodes| == 0 then []
    else
      var n := nodes[0].name;
      var first :=
        (if nodes[0].File? then
           EndsWithConcat(prefix, n);
           StartsWithConcat(prefix, n);
           [FileRec(prefix + n, n, nodes[0].content)]
         else
           var fs := Files(nodes[0].children, prefix + n + "/");
           FilesUnderParent(fs, prefix, n);
           fs);
      var rest := Files(nodes[1..], prefix);
      FilesConcat(first, rest, prefix);
      first + rest
  }

  /** Files under `prefix + n + "/"` are under `prefix`. */
  lemma FilesUnderParent(fs: seq<FileRec>, prefix: string, n: string)
    requires forall i :: 0 <= i < |fs| ==> NameAtEnd(fs[i]) && StartsWith(fs[i].relPath, prefix + n + "/")
    ensures forall i :: 0 <= i < |fs| ==> NameAtEnd(fs[i]) && StartsWith(fs[i].relPath, prefix)
  {
    var p := prefix + n + "/";
    forall i | 0 <= i < |fs| ensures StartsWith(fs[i].relPath, prefix) {
      assert fs[i].relPath[..|prefix|] == p[..|prefix|];
    }
  }

  /** Both parts lie under `prefix`, so their concatenation does. */
  lemma FilesConcat(a: seq<FileRec>, b: seq<FileRec>, prefix: string)
    requires forall i :: 0 <= i < |a| ==> NameAtEnd(a[i]) && StartsWith(a[i].relPath, prefix)
    requires forall i :: 0 <= i < |b| ==> NameAtEnd(b[i]) && StartsWith(b[i].relPath, prefix)
    ensures forall i :: 0 <= i < |a + b| ==> NameAtEnd((a + b)[i]) && StartsWith((a + b)[i].relPath, prefix)
  {
    forall i | 0 <= i < |a + b| ensures NameAtEnd((a + b)[i]) && StartsWith((a + b)[i].relPath, prefix) {
      if i >= |a| { assert (a + b)[i] == b[i - |a|]; }
    }
  }

  /** `name.endsWith('.mdx') || name.endsWith('.md')` */
  predicate IsContentFile(name: string) {
    EndsWith(name, ".mdx") || EndsWith(name, ".md")
  }

  /** `relativePath.replace(/\.(mdx?|md)$/, '')` */
  function StripExt(p: string): (r: string)
    ensures EndsWith(p, ".mdx") ==> p == r + ".mdx"
    ensures !EndsWith(p, ".mdx") && EndsWith(p, ".md") ==> p == r + ".md"
    ensures !IsContentFile(p) ==> r == p
  {
    if EndsWith(p, ".mdx") then p[..|p| - 4]
    else if EndsWith(p, ".md") then p[..|p| - 3]
    else p
  }

  /** `frontmatter.title || slug` */
  function TitleOf(fm: map<string, string>, slug: string): string {
    if "title" in fm && fm["title"] != "" then fm["title"] else slug
  }

  /** `'thumbnail' in frontmatter && frontmatter.thumbnail !== ''` */
  predicate HasThumbnail(fm: map<string, string>) {
    "thumbnail" in fm && fm["thumbnail"] != ""
  }

  /** The post a content file describes. */
  function PostOf(parse: string -> map<string, string>, f: FileRec): PostInfo {
    var fm := parse(f.content);
    var slug := StripExt(f.relPath);
    PostInfo(slug, TitleOf(fm, slug), HasThumbnail(fm))
  }

  /** The content files of `files`, in order. */
  function ContentFiles(files: seq<FileRec>): (r: seq<FileRec>)
    ensures forall f :: f in r <==> f in files && IsContentFile(f.name)
  {
    if |files| == 0 then []
    else
      assert forall f :: f in files <==> f == files[0] || f in files[1..];
      (if IsContentFile(files[0].name) then [files[0]] else []) + ContentFiles(files[1..])
  }

  lemma {:induction false} ContentFilesConcat(a: seq<FileRec>, b: seq<FileRec>)
    ensures ContentFiles(a + b) == ContentFiles(a) + ContentFiles(b)
    decreases |a|
  {
    if |a| > 0 {
      assert (a + b)[1..] == a[1..] + b;
      ContentFilesConcat(a[1..], b);
    } else {
      assert a + b == b;
    }
  }

  /** The post of each file, in order. */
  function Posts(parse: string -> map<string, string>, files: seq<FileRec>): (r: seq<PostInfo>)
    ensures |r| == |files|
    ensures forall i :: 0 <= i < |files| ==> r[i] == PostOf(parse, files[i])
  {
    if |files| == 0 then [] else [PostOf(parse, files[0])] + Posts(parse, files[1..])
  }

  lemma {:induction false} PostsConcat(parse: string -> map<string, string>, a: seq<FileRec>, b: seq<FileRec>)
    ensures Posts(parse, a + b) == Posts(parse, a) + Posts(parse, b)
  {
    var l := Posts(parse, a + b);
    var r := Posts(parse, a) + Posts(parse, b);
    assert |l| == |r|;
    forall i | 0 <= i < |l| ensures l[i] == r[i] {
      if i < |a| {
        assert (a + b)[i] == a[i];
      } else {
        assert (a + b)[i] == b[i - |a|];
      }
    }
  }

  /** `getPostsFromDir(dir, rootDir)`: the recursion of the source, which pushes the posts of
      a sub-directory where the directory is listed. It lists the posts of exactly the content
      files of the tree, in depth-first order. */
  function GetPostsFromDir(parse: string -> map<string, string>, nodes: seq<Node>, prefix: string): (r: seq<PostInfo>)
    requires IsDirPrefix(prefix)
    ensures r == Posts(parse, ContentFiles(Files(nodes, prefix)))
    decreases nodes
  {
    if |nodes| == 0 then []
    else
      var rest := GetPostsFromDir(parse, nodes[1..], prefix);
      var tail := ContentFiles(Files(nodes[1..], prefix));
      match nodes[0]
      case Folder(n, ch) =>
        var head := ContentFiles(Files(ch, prefix + n + "/"));
        var r := GetPostsFromDir(parse, ch, prefix + n + "/") + rest;
        ContentFilesConcat(Files(ch, prefix + n + "/"), Files(nodes[1..], prefix));
        PostsConcat(parse, head, tail);
        r
      case File(n, c) =>
        var f := FileRec(prefix + n, n, c);
        ContentFilesConcat([f], Files(nodes[1..], prefix));
        assert ContentFiles([f]) == if IsContentFile(n) then [f] else [];
        PostsConcat(parse, ContentFiles([f]), tail);
        if !IsContentFile(n) then rest
        else [PostOf(parse, f)] + rest
  }

  /** The posts of the content files of a listing are the posts of its `.mdx` and `.md` files. */
  lemma PostsOfContentFiles(parse: string -> map<string, string>, files: seq<FileRec>)
    ensures forall p :: p in Posts(parse, ContentFiles(files)) <==>
              exists f :: f in files && IsContentFile(f.name) && p == PostOf(parse, f)
  {
    forall p ensures p in Posts(parse, ContentFiles(files)) <==>
                       exists f :: f in files && IsContentFile(f.name) && p == PostOf(parse, f) {
      if p in Posts(parse, ContentFiles(files)) {
        ListedPostHasFile(parse, files, p);
      }
      if exists f :: f in files && IsContentFile(f.name) && p == PostOf(parse, f) {
        var f :| f in files && IsContentFile(f.name) && p == PostOf(parse, f);
        ContentFileIsListed(parse, files, f);
      }
    }
  }

  lemma ListedPostHasFile(parse: string -> map<string, string>, files: seq<FileRec>, p: PostInfo)
    requires p in Posts(parse, ContentFiles(files))
    ensures exists f :: f in files && IsContentFile(f.name) && p == PostOf(parse, f)
  {
    var cf := ContentFiles(files);
    var ps := Posts(parse, cf);
    var i :| 0 <= i < |ps| && ps[i] == p;
    var f := cf[i];
    assert f in cf;
    assert f in files && IsContentFile(f.name) && p == PostOf(parse, f);
  }

  lemma ContentFileIsListed(parse: string -> map<string, string>, files: seq<FileRec>, f: FileRec)
    requires f in files && IsContentFile(f.name)
    ensures PostOf(parse, f) in Posts(parse, ContentFiles(files))
  {
    var cf := ContentFiles(files);
    assert f in cf;
    var i :| 0 <= i < |cf| && cf[i] == f;
    assert Posts(parse, cf)[i] == PostOf(parse, f);
  }

  /** `getAllContentPosts()`: blog posts, then scraps. */
  function GetAllContentPosts(parse: string -> map<string, string>, blog: seq<Node>, scraps: seq<Node>): (r: seq<PostInfo>)
    ensures forall p :: p in r <==>
              exists f :: (f in Files(blog, "") || f in Files(scraps, "")) && IsContentFile(f.name) && p == PostOf(parse, f)
  {
    var bf := Files(blog, "");
    var sf := Files(scraps, "");
    ContentFilesConcat(bf, sf);
    PostsConcat(parse, ContentFiles(bf), ContentFiles(sf));
    PostsOfContentFiles(parse, bf + sf);
    assert forall f :: f in bf + sf <==> f in bf || f in sf;
    GetPostsFromDir(parse, blog, "") + GetPostsFromDir(parse, scraps, "")
  }

  /** `existsSync(path)` and `readFileSync(path)` for a file below a root: the text of the
      first listed file with that relative path. */
  function FileAt(files: seq<FileRec>, path: string): (r: Option<FileRec>)
    ensures r.None? <==> forall f :: f in files ==> f.relPath != path
    ensures r.Some? ==> r.value in files && r.value.relPath == path
  {
    if |files| == 0 then None
    else if files[0].relPath == path then Some(files[0])
    else
      assert forall f :: f in files <==> f == files[0] || f in files[1..];
      FileAt(files[1..], path)
  }

  /** The `.mdx` file of `slug` below a root, else its `.md` file. */
  function SlugFile(files: seq<FileRec>, slug: string): (r: Option<FileRec>)
    ensures r.Some? ==> r.value in files && (r.value.relPath == slug + ".mdx" || r.value.relPath == slug + ".md")
    ensures r.None? <==> forall f :: f in files ==> f.relPath != slug + ".mdx" && f.relPath != slug + ".md"
  {
    match FileAt(files, slug + ".mdx")
    case Some(f) => Some(f)
    case None => FileAt(files, slug + ".md")
  }

  /** `getPostBySlug(slug)`: the blog directory first, then the scraps; in each `.mdx` before
      `.md`. The slug is the requested one. */
  function GetPostBySlug(parse: string -> map<string, string>, blog: seq<Node>, scraps: seq<Node>, slug: string): (r: Option<PostInfo>)
    ensures r.Some? ==> r.value.slug == slug
    ensures r.None? <==>
              forall f :: f in Files(blog, "") + Files(scraps, "") ==> f.relPath != slug + ".mdx" && f.relPath != slug + ".md"
  {
    var found := match SlugFile(Files(blog, ""), slug)
      case Some(f) => Some(f)
      case None => SlugFile(Files(scraps, ""), slug);
    match found
    case None => None
    case Some(f) =>
      var fm := parse(f.content);
      Some(PostInfo(slug, TitleOf(fm, slug), HasThumbnail(fm)))
  }

  /** A path ending in an extension without `/` ends there in the file's own name. */
  lemma ExtensionInName(f: FileRec, ext: string)
    requires NameAtEnd(f) && EndsWith(f.relPath, ext) && '/' !in ext
    ensures EndsWith(f.name, ext)
  {
    var n := |f.relPath|;
    assert forall j :: n - |ext| <= j < n ==> f.relPath[j] == ext[j - (n - |ext|)];
    assert |f.name| >= |ext|;
    assert f.name[|f.name| - |ext|..] == f.relPath[n - |ext|..];
  }

  /** Every post the build lists is found again by its slug, and the post found describes a
      listed content file under the requested slug. */
  lemma ListedPostsFoundBySlug(parse: string -> map<string, string>, blog: seq<Node>, scraps: seq<Node>, p: PostInfo)
    requires p in GetAllContentPosts(parse, blog, scraps)
    ensures GetPostBySlug(parse, blog, scraps, p.slug).Some?
  {
    var f :| (f in Files(blog, "") || f in Files(scraps, "")) && IsContentFile(f.name) && p == PostOf(parse, f);
    if f in Files(blog, "") {
      ListedNameAtEnd(Files(blog, ""), f);
    } else {
      ListedNameAtEnd(Files(scraps, ""), f);
    }
    ContentPathHasExt(f);
    assert f in Files(blog, "") + Files(scraps, "");
  }

  lemma ListedNameAtEnd(files: seq<FileRec>, f: FileRec)
    requires forall i :: 0 <= i < |files| ==> NameAtEnd(files[i])
    requires f in files
    ensures NameAtEnd(f)
  {
    var i :| 0 <= i < |files| && files[i] == f;
  }

  /** The path of a content file ends in the extension of its name. */
  lemma ContentPathHasExt(f: FileRec)
    requires NameAtEnd(f) && IsContentFile(f.name)
    ensures f.relPath == StripExt(f.relPath) + ".mdx" || f.relPath == StripExt(f.relPath) + ".md"
  {
    assert f.relPath[|f.relPath| - |f.name|..] == f.name;
    if EndsWith(f.name, ".mdx") {
      assert f.relPath[|f.relPath| - 4..] == f.name[|f.name| - 4..];
    } else {
      assert f.relPath[|f.relPath| - 3..] == f.name[|f.name| - 3..];
    }
  }

  /** A `.md` path is not a `.mdx` path, so the extension is stripped as `.md`. */
  lemma StripMd(slug: string)
    ensures EndsWith(slug + ".md", ".md") && StripExt(slug + ".md") == slug
  {
    var p := slug + ".md";
    assert p[|p| - 1] == 'd';
    assert !EndsWith(p, ".mdx") by {
      assert |p| >= 4 ==> p[|p| - 4..][3] == 'd';
    }
    EndsWithConcat(slug, ".md");
    assert p[..|p| - 3] == slug;
  }

  /** The file found for a slug is a content file of that slug. */
  lemma SlugFileIsContent(f: FileRec, slug: string)
    requires NameAtEnd(f) && (f.relPath == slug + ".mdx" || f.relPath == slug + ".md")
    ensures IsContentFile(f.name) && StripExt(f.relPath) == slug
  {
    if f.relPath == slug + ".mdx" {
      MdxFileIsContent(f, slug);
    } else {
      MdFileIsContent(f, slug);
    }
  }

  lemma MdxFileIsContent(f: FileRec, slug: string)
    requires NameAtEnd(f) && f.relPath == slug + ".mdx"
    ensures EndsWith(f.name, ".mdx") && StripExt(f.relPath) == slug
  {
    StripMdx(slug);
    ExtensionInName(f, ".mdx");
  }

  lemma MdFileIsContent(f: FileRec, slug: string)
    requires NameAtEnd(f) && f.relPath == slug + ".md"
    ensures EndsWith(f.name, ".md") && StripExt(f.relPath) == slug
  {
    StripMd(slug);
    ExtensionInName(f, ".md");
  }

  lemma StripMdx(slug: string)
    ensures EndsWith(slug + ".mdx", ".mdx") && StripExt(slug + ".mdx") == slug
  {
    var p := slug + ".mdx";
    EndsWithConcat(slug, ".mdx");
    assert p[..|p| - 4] == slug;
  }

  /** The file found by slug is a listed content file: looking a post up by slug never
      invents one the listing does not have. */
  lemma SlugLookupIsListed(parse: string -> map<string, string>, blog: seq<Node>, scraps: seq<Node>, slug: string)
    requires GetPostBySlug(parse, blog, scraps, slug).Some?
    ensures exists f :: (f in Files(blog, "") || f in Files(scraps, "")) && IsContentFile(f.name)
                        && StripExt(f.relPath) == slug
  {
    var bs := Files(blog, "");
    var ss := Files(scraps, "");
    var fb := SlugFile(bs, slug);
    if fb.Some? {
      var i :| 0 <= i < |bs| && bs[i] == fb.value;
      SlugFileIsContent(bs[i], slug);
    } else {
      var fs := SlugFile(ss, slug);
      var i :| 0 <= i < |ss| && ss[i] == fs.value;
      SlugFileIsContent(ss[i], slug);
    }
  }

  /** `getPostByTitleHash(targetHash)`: the first listed post without a thumbnail whose title
      hashes to `target`. */
  function GetPostByTitleHash(posts: seq<PostInfo>, h: string -> string, target: string): (r: Option<PostInfo>)
    ensures r.Some? ==> r.value in posts && !r.value.hasThumbnail && h(r.value.title) == target
    ensures r.None? <==> forall p :: p in posts && !p.hasThumbnail ==> h(p.title) != target
  {
    if |posts| == 0 then None
    else if !posts[0].hasThumbnail && h(posts[0].title) == target then Some(posts[0])
    else
      assert forall p :: p in posts <==> p == posts[0] || p in posts[1..];
      GetPostByTitleHash(posts[1..], h, target)
  }

  /** Among the posts the search may return, it returns the first one. */
  lemma {:induction false} TitleHashFindsFirst(posts: seq<PostInfo>, h: string -> string, i: nat)
    requires i < |posts| && !posts[i].hasThumbnail
    requires forall j :: 0 <= j < i ==> posts[j].hasThumbnail || h(posts[j].title) != h(posts[i].title)
    ensures GetPostByTitleHash(posts, h, h(posts[i].title)) == Some(posts[i])
  {
    if i > 0 {
      assert forall j :: 0 <= j < i - 1 ==> posts[1..][j] == posts[j + 1];
      TitleHashFindsFirst(posts[1..], h, i - 1);
    }
  }

  /** `currentSlugs`: the slugs of the posts without a thumbnail. */
  function CurrentSlugs(posts: seq<PostInfo>): set<string> {
    set p | p in posts && !p.hasThumbnail :: p.slug
  }

  /** The image files named by the snapshot entries of `keys` whose slug is not current. */
  function OrphanFiles(snapshot: map<string, ManifestEntry>, keys: seq<string>, current: set<string>): set<string> {
    set k | k in keys && k in snapshot && k !in current :: ImageFile(snapshot[k].titleHash)
  }

  /** Step 1 of `generateAllOgpImages`, over the snapshot entries in the order `keys`: the
      entry of a slug that is not current loses its image and its manifest entry. Returns the
      store and the number of images actually deleted. */
  function Cleanup(st: Store, snapshot: map<string, ManifestEntry>, keys: seq<string>, current: set<string>)
    : (r: (Store, nat))
    requires forall k :: k in keys ==> k in snapshot
    ensures r.0.images == st.images - OrphanFiles(snapshot, keys, current)
    ensures r.1 == |st.images * OrphanFiles(snapshot, keys, current)|
    ensures forall s :: s in current || s !in keys ==> GetOgpImagePathBySlug(r.0, s) == GetOgpImagePathBySlug(st, s)
    ensures forall k :: k in keys && k !in current ==> GetOgpImagePathBySlug(r.0, k).None?
    decreases |keys|
  {
    if |keys| == 0 then (st, 0)
    else
      var k := keys[0];
      if k in current then
        var r := Cleanup(st, snapshot, keys[1..], current);
        CleanupKeep(st, snapshot, keys, current, r);
        r
      else
        var (existed, st1) := DeleteOgpImage(st, snapshot[k].titleHash);
        var st2 := RemoveManifestEntry(st1, k);
        var (st3, d) := Cleanup(st2, snapshot, keys[1..], current);
        CleanupDrop(st, snapshot, keys, current, (st3, d));
        (st3, d + (if existed then 1 else 0))
  }

  /** What `Cleanup` promises, as it states it. */
  ghost predicate CleanupSpec(st: Store, snapshot: map<string, ManifestEntry>, keys: seq<string>,
                              current: set<string>, r: (Store, nat)) {
    && r.0.images == st.images - OrphanFiles(snapshot, keys, current)
    && r.1 == |st.images * OrphanFiles(snapshot, keys, current)|
    && (forall s :: s in current || s !in keys ==> GetOgpImagePathBySlug(r.0, s) == GetOgpImagePathBySlug(st, s))
    && (forall k :: k in keys && k !in current ==> GetOgpImagePathBySlug(r.0, k).None?)
  }

  /** A current first slug is passed over. */
  lemma CleanupKeep(st: Store, snapshot: map<string, ManifestEntry>, keys: seq<string>, current: set<string>,
                    r: (Store, nat))
    requires |keys| > 0 && keys[0] in current && keys[0] in snapshot
    requires CleanupSpec(st, snapshot, keys[1..], current, r)
    ensures CleanupSpec(st, snapshot, keys, current, r)
  {
    OrphanFilesCons(snapshot, keys, current);
  }

  /** A first slug that is not current loses its image and its entry before the rest. */
  lemma CleanupDrop(st: Store, snapshot: map<string, ManifestEntry>, keys: seq<string>, current: set<string>,
                    r: (Store, nat))
    requires |keys| > 0 && keys[0] !in current && keys[0] in snapshot
    requires CleanupSpec(RemoveManifestEntry(DeleteOgpImage(st, snapshot[keys[0]].titleHash).1, keys[0]),
                         snapshot, keys[1..], current, r)
    ensures CleanupSpec(st, snapshot, keys, current,
                        (r.0, r.1 + (if DeleteOgpImage(st, snapshot[keys[0]].titleHash).0 then 1 else 0)))
  {
    var st2 := RemoveManifestEntry(DeleteOgpImage(st, snapshot[keys[0]].titleHash).1, keys[0]);
    CleanupDropImages(st, snapshot, keys, current, st2, r);
    CleanupDropPaths(st, snapshot, keys, current, st2, r.0);
  }

  lemma CleanupDropImages(st: Store, snapshot: map<string, ManifestEntry>, keys: seq<string>, current: set<string>,
                          st2: Store, r: (Store, nat))
    requires |keys| > 0 && keys[0] !in current && keys[0] in snapshot
    requires st2.images == st.images - {ImageFile(snapshot[keys[0]].titleHash)}
    requires r.0.images == st2.images - OrphanFiles(snapshot, keys[1..], current)
    requires r.1 == |st2.images * OrphanFiles(snapshot, keys[1..], current)|
    ensures r.0.images == st.images - OrphanFiles(snapshot, keys, current)
    ensures r.1 + (if ImageFile(snapshot[keys[0]].titleHash) in st.images then 1 else 0)
            == |st.images * OrphanFiles(snapshot, keys, current)|
  {
    var k := keys[0];
    var f := ImageFile(snapshot[k].titleHash);
    var later := OrphanFiles(snapshot, keys[1..], current);
    OrphanFilesCons(snapshot, keys, current);
    assert st.images - ({f} + later) == (st.images - {f}) - later;
    CountAfterRemoval(st.images, f, later);
  }

  /** The orphans of a key list are those of its first key and those of the rest. */
  lemma OrphanFilesCons(snapshot: map<string, ManifestEntry>, keys: seq<string>, current: set<string>)
    requires |keys| > 0 && keys[0] in snapshot
    ensures OrphanFiles(snapshot, keys, current) ==
            (if keys[0] in current then {} else {ImageFile(snapshot[keys[0]].titleHash)})
            + OrphanFiles(snapshot, keys[1..], current)
  {
    assert forall x :: x in keys <==> x == keys[0] || x in keys[1..];
  }

  lemma CleanupDropPaths(st: Store, snapshot: map<string, ManifestEntry>, keys: seq<string>, current: set<string>,
                         st2: Store, r: Store)
    requires |keys| > 0 && keys[0] !in current
    requires GetOgpImagePathBySlug(st2, keys[0]).None?
    requires forall s :: s != keys[0] ==> GetOgpImagePathBySlug(st2, s) == GetOgpImagePathBySlug(st, s)
    requires forall s :: s in current || s !in keys[1..] ==> GetOgpImagePathBySlug(r, s) == GetOgpImagePathBySlug(st2, s)
    requires forall k :: k in keys[1..] && k !in current ==> GetOgpImagePathBySlug(r, k).None?
    ensures forall s :: s in current || s !in keys ==> GetOgpImagePathBySlug(r, s) == GetOgpImagePathBySlug(st, s)
    ensures forall k :: k in keys && k !in current ==> GetOgpImagePathBySlug(r, k).None?
  {
    assert forall x :: x in keys <==> x == keys[0] || x in keys[1..];
  }


  /** Deleting `f` first and then the files of `later` deletes as many as deleting the files
      of `{f} + later` at once. */
  lemma CountAfterRemoval(images: set<string>, f: string, later: set<string>)
    ensures |images * ({f} + later)| == |(images - {f}) * later| + (if f in images then 1 else 0)
  {
    var a := images * {f};
    var b := (images - {f}) * later;
    assert images * ({f} + later) == a + b;
    assert a * b == {};
    assert |a| == if f in images then 1 else 0;
  }

  /** Whether to skip existing images, and whether to regenerate everything. */
  datatype Options = Options(skipExisting: bool, force: bool)

  /** The counters the run reports. */
  datatype Counters = Counters(generated: nat, skipped: nat, deleted: nat, regenerated: nat)

  function Sum(a: Counters, b: Counters): Counters {
    Counters(a.generated + b.generated, a.skipped + b.skipped, a.deleted + b.deleted, a.regenerated + b.regenerated)
  }

  /** Posts step 2 renders: those without a thumbnail, or all of them when forced. */
  predicate Processed(p: PostInfo, opts: Options) {
    !p.hasThumbnail || opts.force
  }

  /** The post has an entry in the snapshot that records another title hash: it was retitled. */
  predicate Retitled(snapshot: map<string, ManifestEntry>, p: PostInfo, h: string -> string) {
    p.slug in snapshot && snapshot[p.slug].titleHash != h(p.title)
  }

  /** Step 2 skips the post because the image of its title already exists. */
  predicate SkipsExisting(st: Store, snapshot: map<string, ManifestEntry>, p: PostInfo, opts: Options,
                          h: string -> string) {
    Processed(p, opts) && !Retitled(snapshot, p, h) && opts.skipExisting && !opts.force
    && OgpImageExistsByTitle(st, h, p.title)
  }

  /** Step 2 for one post. The manifest entry is looked up in the `snapshot` loaded before
      step 1; rendering the post's image succeeds when `ok`. The old image of a retitled post is
      deleted unless its hash is in `keep`: the code as written keeps nothing. */
  function ProcessPost(st: Store, snapshot: map<string, ManifestEntry>, p: PostInfo, opts: Options,
                       h: string -> string, ok: bool, now: int, keep: set<string>): (r: (Store, Counters))
    ensures !Processed(p, opts) ==> r == (st, Counters(0, 1, 0, 0))
    ensures SkipsExisting(st, snapshot, p, opts, h) ==> r == (st, Counters(0, 1, 0, 0))
    ensures Processed(p, opts) && !SkipsExisting(st, snapshot, p, opts, h) ==>
              r.1 == Counters(if ok && !Retitled(snapshot, p, h) then 1 else 0, 0, 0,
                              if ok && Retitled(snapshot, p, h) then 1 else 0)
    ensures Processed(p, opts) && !SkipsExisting(st, snapshot, p, opts, h) && ok ==>
              p.slug in Entries(r.0) && Entries(r.0)[p.slug] == ManifestEntry(h(p.title), p.title, now)
    ensures !ok ==> Entries(r.0) == Entries(st)
    ensures forall s :: s != p.slug ==> (s in Entries(r.0) <==> s in Entries(st))
    ensures forall s :: s != p.slug && s in Entries(st) ==> Entries(r.0)[s] == Entries(st)[s]
    ensures Processed(p, opts) && ok ==> h(p.title) + ".png" in r.0.images
    ensures forall x :: x in st.images && x !in r.0.images ==>
              Processed(p, opts) && Retitled(snapshot, p, h)
              && x == snapshot[p.slug].titleHash + ".png" && snapshot[p.slug].titleHash !in keep
    ensures r.0.images <= st.images + {h(p.title) + ".png"}
    ensures r.0.images != st.images ==> Processed(p, opts)
    ensures r.1.deleted == 0 && r.1.generated + r.1.skipped + r.1.regenerated <= 1
  {
    if !Processed(p, opts) then (st, Counters(0, 1, 0, 0))
    else
      var hash := h(p.title);
      if p.slug in snapshot && snapshot[p.slug].titleHash != hash then
        var previous := snapshot[p.slug].titleHash;
        var st1 := if previous in keep then st else DeleteOgpImage(st, previous).1;
        var st2 := GenerateOgpImage(st1, h, p.slug, p.title, now, ok).1;
        (st2, Counters(0, 0, 0, if ok then 1 else 0))
      else if opts.skipExisting && !opts.force && OgpImageExistsByTitle(st, h, p.title) then
        (st, Counters(0, 1, 0, 0))
      else
        var st2 := GenerateOgpImage(st, h, p.slug, p.title, now, ok).1;
        (st2, Counters(if ok then 1 else 0, 0, 0, 0))
  }

  /** Every post has its own slug. */
  predicate DistinctSlugs(posts: seq<PostInfo>) {
    forall i, j :: 0 <= i < j < |posts| ==> posts[i].slug != posts[j].slug
  }

  /** No post has slug `s`. */
  predicate NotASlug(posts: seq<PostInfo>, s: string) {
    forall q :: q in posts ==> q.slug != s
  }

  /** The store's entry for `s`, if any, records the hash the snapshot records. */
  predicate AgreesAt(st: Store, snapshot: map<string, ManifestEntry>, s: string) {
    s in Entries(st) ==> s in snapshot && Entries(st)[s].titleHash == snapshot[s].titleHash
  }

  /** The store's entry for the post, if any, records the hash of its current title. */
  predicate EntryCurrent(st: Store, p: PostInfo, h: string -> string) {
    p.slug in Entries(st) ==> Entries(st)[p.slug].titleHash == h(p.title)
  }

  /** Step 2 over the posts in order; `renderOk` says which slugs render successfully. */
  function ProcessPosts(st: Store, snapshot: map<string, ManifestEntry>, posts: seq<PostInfo>, opts: Options,
                        h: string -> string, renderOk: string -> bool, now: int, keep: set<string>)
    : (r: (Store, Counters))
    ensures forall x :: x in st.images && x !in r.0.images ==>
              exists q :: q in posts && Processed(q, opts) && Retitled(snapshot, q, h)
                          && x == snapshot[q.slug].titleHash + ".png" && snapshot[q.slug].titleHash !in keep
    ensures forall x :: x in r.0.images && x !in st.images ==>
              exists q :: q in posts && Processed(q, opts) && x == h(q.title) + ".png"
    ensures forall s :: NotASlug(posts, s) ==> (s in Entries(r.0) <==> s in Entries(st))
    ensures forall s :: NotASlug(posts, s) && s in Entries(st) ==> Entries(r.0)[s] == Entries(st)[s]
    ensures DistinctSlugs(posts) ==>
              forall i :: 0 <= i < |posts| && Processed(posts[i], opts) && renderOk(posts[i].slug)
                          && AgreesAt(st, snapshot, posts[i].slug) ==>
                EntryCurrent(r.0, posts[i], h) && (posts[i].slug in Entries(st) ==> posts[i].slug in Entries(r.0))
    ensures r.1.deleted == 0 && r.1.generated + r.1.skipped + r.1.regenerated <= |posts|
    decreases |posts|
  {
    if |posts| == 0 then (st, Counters(0, 0, 0, 0))
    else
      var (st1, c1) := ProcessPost(st, snapshot, posts[0], opts, h, renderOk(posts[0].slug), now, keep);
      var (st2, c2) := ProcessPosts(st1, snapshot, posts[1..], opts, h, renderOk, now, keep);
      StepDeleted(st, snapshot, posts, opts, h, renderOk, now, keep, st2);
      StepAdded(st, snapshot, posts, opts, h, renderOk, now, keep, st2);
      StepUntouched(st, snapshot, posts, opts, h, renderOk, now, keep, st2);
      StepCurrent(st, snapshot, posts, opts, h, renderOk, now, keep, st2);
      (st2, Sum(c1, c2))
  }

  /** The images a post's step removes, then those the later posts remove. */
  lemma StepDeleted(st: Store, snapshot: map<string, ManifestEntry>, posts: seq<PostInfo>, opts: Options,
                    h: string -> string, renderOk: string -> bool, now: int, keep: set<string>, r: Store)
    requires |posts| > 0
    requires var st1 := ProcessPost(st, snapshot, posts[0], opts, h, renderOk(posts[0].slug), now, keep).0;
             forall x :: x in st1.images && x !in r.images ==>
               exists q :: q in posts[1..] && Processed(q, opts) && Retitled(snapshot, q, h)
                           && x == snapshot[q.slug].titleHash + ".png" && snapshot[q.slug].titleHash !in keep
    ensures forall x :: x in st.images && x !in r.images ==>
              exists q :: q in posts && Processed(q, opts) && Retitled(snapshot, q, h)
                          && x == snapshot[q.slug].titleHash + ".png" && snapshot[q.slug].titleHash !in keep
  {
    var st1 := ProcessPost(st, snapshot, posts[0], opts, h, renderOk(posts[0].slug), now, keep).0;
    forall x | x in st.images && x !in r.images
      ensures exists q :: q in posts && Processed(q, opts) && Retitled(snapshot, q, h)
                          && x == snapshot[q.slug].titleHash + ".png" && snapshot[q.slug].titleHash !in keep
    {
      if x in st1.images {
        var q :| q in posts[1..] && Processed(q, opts) && Retitled(snapshot, q, h)
                 && x == snapshot[q.slug].titleHash + ".png" && snapshot[q.slug].titleHash !in keep;
        assert q in posts;
      } else {
        assert posts[0] in posts;
      }
    }
  }

  /** The images a post's step adds, then those the later posts add. */
  lemma StepAdded(st: Store, snapshot: map<string, ManifestEntry>, posts: seq<PostInfo>, opts: Options,
                  h: string -> string, renderOk: string -> bool, now: int, keep: set<string>, r: Store)
    requires |posts| > 0
    requires var st1 := ProcessPost(st, snapshot, posts[0], opts, h, renderOk(posts[0].slug), now, keep).0;
             forall x :: x in r.images && x !in st1.images ==>
               exists q :: q in posts[1..] && Processed(q, opts) && x == h(q.title) + ".png"
    ensures forall x :: x in r.images && x !in st.images ==>
              exists q :: q in posts && Processed(q, opts) && x == h(q.title) + ".png"
  {
    var st1 := ProcessPost(st, snapshot, posts[0], opts, h, renderOk(posts[0].slug), now, keep).0;
    forall x | x in r.images && x !in st.images
      ensures exists q :: q in posts && Processed(q, opts) && x == h(q.title) + ".png"
    {
      if x in st1.images {
        assert posts[0] in posts && x == h(posts[0].title) + ".png";
      } else {
        var q :| q in posts[1..] && Processed(q, opts) && x == h(q.title) + ".png";
        assert q in posts;
      }
    }
  }

  /** A slug no post has keeps its entry through every post's step. */
  lemma StepUntouched(st: Store, snapshot: map<string, ManifestEntry>, posts: seq<PostInfo>, opts: Options,
                      h: string -> string, renderOk: string -> bool, now: int, keep: set<string>, r: Store)
    requires |posts| > 0
    requires var st1 := ProcessPost(st, snapshot, posts[0], opts, h, renderOk(posts[0].slug), now, keep).0;
             && (forall s :: NotASlug(posts[1..], s) ==> (s in Entries(r) <==> s in Entries(st1)))
             && (forall s :: NotASlug(posts[1..], s) && s in Entries(st1) ==> Entries(r)[s] == Entries(st1)[s])
    ensures forall s :: NotASlug(posts, s) ==> (s in Entries(r) <==> s in Entries(st))
    ensures forall s :: NotASlug(posts, s) && s in Entries(st) ==> Entries(r)[s] == Entries(st)[s]
  {
    forall s | NotASlug(posts, s) ensures NotASlug(posts[1..], s) && s != posts[0].slug {
      assert posts[0] in posts;
      assert forall q :: q in posts[1..] ==> q in posts;
    }
  }

  /** With distinct slugs, a post that renders ends with an entry for its current title. */
  lemma StepCurrent(st: Store, snapshot: map<string, ManifestEntry>, posts: seq<PostInfo>, opts: Options,
                    h: string -> string, renderOk: string -> bool, now: int, keep: set<string>, r: Store)
    requires |posts| > 0
    requires var st1 := ProcessPost(st, snapshot, posts[0], opts, h, renderOk(posts[0].slug), now, keep).0;
             && (forall s :: NotASlug(posts[1..], s) ==> (s in Entries(r) <==> s in Entries(st1)))
             && (forall s :: NotASlug(posts[1..], s) && s in Entries(st1) ==> Entries(r)[s] == Entries(st1)[s])
             && (DistinctSlugs(posts[1..]) ==>
                   forall i :: 0 <= i < |posts[1..]| && Processed(posts[1..][i], opts) && renderOk(posts[1..][i].slug)
                               && AgreesAt(st1, snapshot, posts[1..][i].slug) ==>
                     EntryCurrent(r, posts[1..][i], h)
                     && (posts[1..][i].slug in Entries(st1) ==> posts[1..][i].slug in Entries(r)))
    ensures DistinctSlugs(posts) ==>
              forall i :: 0 <= i < |posts| && Processed(posts[i], opts) && renderOk(posts[i].slug)
                          && AgreesAt(st, snapshot, posts[i].slug) ==>
                EntryCurrent(r, posts[i], h) && (posts[i].slug in Entries(st) ==> posts[i].slug in Entries(r))
  {
    if DistinctSlugs(posts) {
      var st1 := ProcessPost(st, snapshot, posts[0], opts, h, renderOk(posts[0].slug), now, keep).0;
      var rest := posts[1..];
      assert DistinctSlugs(rest) by {
        forall i, j | 0 <= i < j < |rest| ensures rest[i].slug != rest[j].slug {
          assert rest[i] == posts[i + 1] && rest[j] == posts[j + 1];
        }
      }
      forall i | 0 <= i < |posts| && Processed(posts[i], opts) && renderOk(posts[i].slug)
                 && AgreesAt(st, snapshot, posts[i].slug)
        ensures EntryCurrent(r, posts[i], h) && (posts[i].slug in Entries(st) ==> posts[i].slug in Entries(r))
      {
        if i == 0 {
          ProcessPostEntry(st, snapshot, posts[0], opts, h, now, keep);
          assert NotASlug(rest, posts[0].slug) by {
            forall q | q in rest ensures q.slug != posts[0].slug {
              var j :| 0 <= j < |rest| && rest[j] == q;
              assert q == posts[j + 1];
            }
          }
        } else {
          assert rest[i - 1] == posts[i];
          assert posts[i].slug != posts[0].slug;
        }
      }
    }
  }

  /** A processed post that renders leaves an entry for its current title, and keeps the entry
      it had, when the store agreed with the snapshot on its slug. */
  lemma ProcessPostEntry(st: Store, snapshot: map<string, ManifestEntry>, p: PostInfo, opts: Options,
                         h: string -> string, now: int, keep: set<string>)
    requires Processed(p, opts) && AgreesAt(st, snapshot, p.slug)
    ensures var r := ProcessPost(st, snapshot, p, opts, h, true, now, keep).0;
            EntryCurrent(r, p, h) && (p.slug in Entries(st) ==> p.slug in Entries(r))
  {
  }

  /** Step 2 never removes an image whose hash is kept. */
  lemma KeptImagesSurvive(st: Store, snapshot: map<string, ManifestEntry>, posts: seq<PostInfo>, opts: Options,
                          h: string -> string, renderOk: string -> bool, now: int, keep: set<string>, hash: string)
    requires hash in keep && hash + ".png" in st.images
    ensures hash + ".png" in ProcessPosts(st, snapshot, posts, opts, h, renderOk, now, keep).0.images
  {
    forall k | k in snapshot
      ensures snapshot[k].titleHash !in keep ==> hash + ".png" != snapshot[k].titleHash + ".png"
    {
      ImageFileInjective(hash, snapshot[k].titleHash);
    }
  }

  /** File names determine hashes. */
  lemma ImageFileInjective(a: string, b: string)
    ensures a + ".png" == b + ".png" ==> a == b
  {
    assert a == (a + ".png")[..|a|];
    assert b == (b + ".png")[..|b|];
  }

  /** A post processed in step 2 that renders, and whose hash is kept, has its image at the
      end of the step. */
  lemma {:induction false} ProcessedImageExists(st: Store, snapshot: map<string, ManifestEntry>, posts: seq<PostInfo>,
                                                opts: Options, h: string -> string, renderOk: string -> bool,
                                                now: int, keep: set<string>, i: nat)
    requires i < |posts| && Processed(posts[i], opts) && renderOk(posts[i].slug)
    requires h(posts[i].title) in keep
    ensures h(posts[i].title) + ".png" in ProcessPosts(st, snapshot, posts, opts, h, renderOk, now, keep).0.images
    decreases i
  {
    var st1 := ProcessPost(st, snapshot, posts[0], opts, h, renderOk(posts[0].slug), now, keep).0;
    if i == 0 {
      KeptImagesSurvive(st1, snapshot, posts[1..], opts, h, renderOk, now, keep, h(posts[0].title));
    } else {
      assert posts[1..][i - 1] == posts[i];
      ProcessedImageExists(st1, snapshot, posts[1..], opts, h, renderOk, now, keep, i - 1);
    }
  }

  /** The hashes of the titles step 2 renders. */
  function LiveHashes(posts: seq<PostInfo>, opts: Options, h: string -> string): set<string> {
    set p | p in posts && Processed(p, opts) :: h(p.title)
  }

  /** `generateAllOgpImages({ skipExisting, force })` with the old images of retitled posts
      deleted unless their hash is in `keep`. `keys` is the order in which `Object.entries`
      lists the manifest that was loaded at the start. */
  function RunWith(st: Store, posts: seq<PostInfo>, keys: seq<string>, opts: Options, h: string -> string,
                   renderOk: string -> bool, now: int, keep: set<string>): (r: (Store, Counters))
    requires forall k :: k in keys <==> k in Entries(st)
    ensures RunOutcome(st, posts, keys, opts, h, renderOk, keep, r.0)
    ensures r.1.deleted == |st.images * OrphanFiles(Entries(st), keys, CurrentSlugs(posts))|
    ensures r.1.generated + r.1.skipped + r.1.regenerated <= |posts|
  {
    RunFacts(st, posts, keys, opts, h, renderOk, now, keep);
    var snapshot := Entries(st);
    var (st1, deleted) := Cleanup(st, snapshot, keys, CurrentSlugs(posts));
    var (st2, c) := ProcessPosts(st1, snapshot, posts, opts, h, renderOk, now, keep);
    (st2, c.(deleted := deleted))
  }

  /** What a run leaves in the store `r`: the images and the entries it changes. */
  ghost predicate RunOutcome(st: Store, posts: seq<PostInfo>, keys: seq<string>, opts: Options, h: string -> string,
                             renderOk: string -> bool, keep: set<string>, r: Store) {
    RunImages(st, posts, keys, opts, h, keep, r) && RunEntries(st, posts, opts, h, renderOk, r)
  }

  /** An image lost is an orphan's, or the old image of a processed, retitled post whose hash is
      not kept; an image gained is that of a processed post's title. */
  ghost predicate RunImages(st: Store, posts: seq<PostInfo>, keys: seq<string>, opts: Options, h: string -> string,
                            keep: set<string>, r: Store) {
    && (forall x :: x in st.images && x !in r.images ==>
          x in OrphanFiles(Entries(st), keys, CurrentSlugs(posts))
          || exists q :: q in posts && Processed(q, opts) && Retitled(Entries(st), q, h)
                         && x == ImageFile(Entries(st)[q.slug].titleHash) && Entries(st)[q.slug].titleHash !in keep)
    && (forall x :: x in r.images && x !in st.images ==>
          exists q :: q in posts && Processed(q, opts) && x == ImageFile(h(q.title)))
  }

  /** Every entry left belongs to a post of the run; with distinct slugs, a processed post that
      renders ends with an entry for its current title, and one without a thumbnail keeps the
      entry it had. */
  ghost predicate RunEntries(st: Store, posts: seq<PostInfo>, opts: Options, h: string -> string,
                             renderOk: string -> bool, r: Store) {
    && (forall s :: s in Entries(r) ==> exists q :: q in posts && q.slug == s)
    && (DistinctSlugs(posts) ==>
          forall p :: p in posts && Processed(p, opts) && renderOk(p.slug) ==>
            EntryCurrent(r, p, h) && (p.slug in Entries(st) && !p.hasThumbnail ==> p.slug in Entries(r)))
  }

  /** The two steps of `RunWith` produce its outcome. */
  lemma RunFacts(st: Store, posts: seq<PostInfo>, keys: seq<string>, opts: Options, h: string -> string,
                 renderOk: string -> bool, now: int, keep: set<string>)
    requires forall k :: k in keys <==> k in Entries(st)
    ensures var st1 := Cleanup(st, Entries(st), keys, CurrentSlugs(posts)).0;
            RunOutcome(st, posts, keys, opts, h, renderOk, keep,
                       ProcessPosts(st1, Entries(st), posts, opts, h, renderOk, now, keep).0)
  {
    var snapshot := Entries(st);
    var st1 := Cleanup(st, snapshot, keys, CurrentSlugs(posts)).0;
    var st2 := ProcessPosts(st1, snapshot, posts, opts, h, renderOk, now, keep).0;
    RunImagesOf(st, posts, keys, opts, h, keep, st1, st2);
    CleanupAgrees(st, keys, CurrentSlugs(posts), st1);
    RunEntriesBelongToPosts(st, posts, keys, st1, st2);
    RunEntriesCurrent(st, snapshot, posts, keys, opts, h, renderOk, now, keep, st1);
  }

  /** Step 1 loses the orphans' images; step 2 loses and gains what it says. */
  lemma RunImagesOf(st: Store, posts: seq<PostInfo>, keys: seq<string>, opts: Options, h: string -> string,
                    keep: set<string>, st1: Store, st2: Store)
    requires st1.images == st.images - OrphanFiles(Entries(st), keys, CurrentSlugs(posts))
    requires forall x :: x in st1.images && x !in st2.images ==>
               exists q :: q in posts && Processed(q, opts) && Retitled(Entries(st), q, h)
                           && x == Entries(st)[q.slug].titleHash + ".png" && Entries(st)[q.slug].titleHash !in keep
    requires forall x :: x in st2.images && x !in st1.images ==>
               exists q :: q in posts && Processed(q, opts) && x == h(q.title) + ".png"
    ensures RunImages(st, posts, keys, opts, h, keep, st2)
  {
  }

  /** After step 1 every entry left records the hash the snapshot records, and only current
      slugs keep their entry. */
  lemma CleanupAgrees(st: Store, keys: seq<string>, current: set<string>, st1: Store)
    requires forall k :: k in keys <==> k in Entries(st)
    requires forall s :: s in current || s !in keys ==> GetOgpImagePathBySlug(st1, s) == GetOgpImagePathBySlug(st, s)
    requires forall k :: k in keys && k !in current ==> GetOgpImagePathBySlug(st1, k).None?
    ensures forall s :: AgreesAt(st1, Entries(st), s)
    ensures forall s :: s in Entries(st1) <==> s in Entries(st) && s in current
  {
    forall s ensures AgreesAt(st1, Entries(st), s) && (s in Entries(st1) <==> s in Entries(st) && s in current) {
      if s in current || s !in keys {
        if s in Entries(st1) {
          ImagePathInjective(Entries(st1)[s].titleHash, Entries(st)[s].titleHash);
        }
      }
    }
  }

  /** An entry at the end of the run belongs to a post of the run. */
  lemma RunEntriesBelongToPosts(st: Store, posts: seq<PostInfo>, keys: seq<string>, st1: Store, st2: Store)
    requires forall s :: s in Entries(st1) <==> s in Entries(st) && s in CurrentSlugs(posts)
    requires forall s :: NotASlug(posts, s) ==> (s in Entries(st2) <==> s in Entries(st1))
    ensures forall s :: s in Entries(st2) ==> exists q :: q in posts && q.slug == s
  {
    forall s | s in Entries(st2) ensures exists q :: q in posts && q.slug == s {
      if NotASlug(posts, s) {
        assert s in CurrentSlugs(posts);
      }
    }
  }

  /** With distinct slugs, a processed post that renders ends with an entry for its current
      title, and one without a thumbnail keeps the entry it had. */
  lemma RunEntriesCurrent(st: Store, snapshot: map<string, ManifestEntry>, posts: seq<PostInfo>, keys: seq<string>,
                          opts: Options, h: string -> string, renderOk: string -> bool, now: int,
                          keep: set<string>, st1: Store)
    requires snapshot == Entries(st)
    requires forall s :: AgreesAt(st1, snapshot, s)
    requires forall s :: s in Entries(st1) <==> s in Entries(st) && s in CurrentSlugs(posts)
    ensures var st2 := ProcessPosts(st1, snapshot, posts, opts, h, renderOk, now, keep).0;
            DistinctSlugs(posts) ==>
              forall p :: p in posts && Processed(p, opts) && renderOk(p.slug) ==>
                EntryCurrent(st2, p, h) && (p.slug in Entries(st) && !p.hasThumbnail ==> p.slug in Entries(st2))
  {
    var st2 := ProcessPosts(st1, snapshot, posts, opts, h, renderOk, now, keep).0;
    if DistinctSlugs(posts) {
      forall p | p in posts && Processed(p, opts) && renderOk(p.slug)
        ensures EntryCurrent(st2, p, h) && (p.slug in Entries(st) && !p.hasThumbnail ==> p.slug in Entries(st2))
      {
        var i :| 0 <= i < |posts| && posts[i] == p;
        assert AgreesAt(st1, snapshot, posts[i].slug);
        if !p.hasThumbnail {
          assert p.slug in CurrentSlugs(posts);
        }
      }
    }
  }

  /** The run as written: a retitled post's old image is always deleted. */
  function GenerateAllOgpImages(st: Store, posts: seq<PostInfo>, keys: seq<string>, opts: Options,
                                h: string -> string, renderOk: string -> bool, now: int): (r: (Store, Counters))
    requires forall k :: k in keys <==> k in Entries(st)
    ensures forall x :: x in st.images && x !in r.0.images ==>
              x in OrphanFiles(Entries(st), keys, CurrentSlugs(posts))
              || exists q :: q in posts && Processed(q, opts) && Retitled(Entries(st), q, h)
                             && x == ImageFile(Entries(st)[q.slug].titleHash)
    ensures forall x :: x in r.0.images && x !in st.images ==>
              exists q :: q in posts && Processed(q, opts) && x == ImageFile(h(q.title))
    ensures forall s :: s in Entries(r.0) ==> exists q :: q in posts && q.slug == s
    ensures DistinctSlugs(posts) ==>
              forall p :: p in posts && Processed(p, opts) && renderOk(p.slug) ==>
                EntryCurrent(r.0, p, h) && (p.slug in Entries(st) && !p.hasThumbnail ==> p.slug in Entries(r.0))
    ensures r.1.deleted == |st.images * OrphanFiles(Entries(st), keys, CurrentSlugs(posts))|
    ensures r.1.generated + r.1.skipped + r.1.regenerated <= |posts|
  {
    RunWith(st, posts, keys, opts, h, renderOk, now, {})
  }

  /** The run with the old image kept while a post of this run still shows that title. */
  function GenerateAllOgpImagesFixed(st: Store, posts: seq<PostInfo>, keys: seq<string>, opts: Options,
                                     h: string -> string, renderOk: string -> bool, now: int): (r: (Store, Counters))
    requires forall k :: k in keys <==> k in Entries(st)
    ensures forall p :: p in posts && Processed(p, opts) && renderOk(p.slug) ==> h(p.title) + ".png" in r.0.images
    ensures forall x :: x in st.images && x !in r.0.images ==>
              x in OrphanFiles(Entries(st), keys, CurrentSlugs(posts))
              || exists q :: q in posts && Processed(q, opts) && Retitled(Entries(st), q, h)
                             && x == ImageFile(Entries(st)[q.slug].titleHash)
                             && Entries(st)[q.slug].titleHash !in LiveHashes(posts, opts, h)
    ensures forall x :: x in r.0.images && x !in st.images ==>
              exists q :: q in posts && Processed(q, opts) && x == ImageFile(h(q.title))
    ensures forall s :: s in Entries(r.0) ==> exists q :: q in posts && q.slug == s
    ensures DistinctSlugs(posts) ==>
              forall p :: p in posts && Processed(p, opts) && renderOk(p.slug) ==>
                EntryCurrent(r.0, p, h) && (p.slug in Entries(st) && !p.hasThumbnail ==> p.slug in Entries(r.0))
    ensures r.1.deleted == |st.images * OrphanFiles(Entries(st), keys, CurrentSlugs(posts))|
    ensures r.1.generated + r.1.skipped + r.1.regenerated <= |posts|
  {
    var keep := LiveHashes(posts, opts, h);
    var snapshot := Entries(st);
    var st1 := Cleanup(st, snapshot, keys, CurrentSlugs(posts)).0;
    forall p | p in posts && Processed(p, opts) && renderOk(p.slug)
      ensures h(p.title) + ".png" in ProcessPosts(st1, snapshot, posts, opts, h, renderOk, now, keep).0.images
    {
      var i :| 0 <= i < |posts| && posts[i] == p;
      ProcessedImageExists(st1, snapshot, posts, opts, h, renderOk, now, keep, i);
    }
    RunWith(st, posts, keys, opts, h, renderOk, now, keep)
  }

  /** The hash used in the example below: title "T" hashes to zeros, every other title to ones. */
  function ExampleHash(title: string): string {
    if title == "T" then "0000000000000000" else "1111111111111111"
  }

  lemma ExampleHashIsDigest()
    ensures ValidDigest(ExampleHash)
  {
    forall t ensures IsHash(ExampleHash(t)) {
      var d := ExampleHash(t);
      assert forall i :: 0 <= i < |d| ==> d[i] == d[0];
    }
  }

  function AlwaysRenders(slug: string): bool {
    true
  }

  /** Post `b` is titled "T" and has its image; post `a` was titled "T" too and is now "U". */
  function ExamplePosts(): seq<PostInfo> {
    [PostInfo("b", "T", false), PostInfo("a", "U", false)]
  }

  function ExampleEntries(): map<string, ManifestEntry> {
    map["a" := ManifestEntry(ExampleHash("T"), "T", 0), "b" := ManifestEntry(ExampleHash("T"), "T", 0)]
  }

  function ExampleStore(): Store {
    Store(Stored(Manifest(1, ExampleEntries())), {ExampleHash("T") + ".png"})
  }

  /** Step 1 of the example deletes nothing: both manifest slugs are current. */
  lemma ExampleCleanup()
    ensures Cleanup(ExampleStore(), ExampleEntries(), ["a", "b"], CurrentSlugs(ExamplePosts())).0.images
            == {ExampleHash("T") + ".png"}
  {
    var posts := ExamplePosts();
    assert posts[0] in posts && posts[1] in posts;
    assert CurrentSlugs(posts) == {"a", "b"};
    assert OrphanFiles(ExampleEntries(), ["a", "b"], {"a", "b"}) == {};
  }

  /** `b` finds its image already there and is skipped. */
  lemma ExampleFirstPost(st: Store)
    requires ExampleHash("T") + ".png" in st.images
    ensures ProcessPost(st, ExampleEntries(), ExamplePosts()[0], Options(true, false), ExampleHash, true, 1, {}).0 == st
  {
  }

  /** `a` was renamed, so the image of its old title goes. */
  lemma ExampleSecondPost(st: Store)
    requires st.images == {ExampleHash("T") + ".png"}
    ensures ExampleHash("T") + ".png" !in
              ProcessPost(st, ExampleEntries(), ExamplePosts()[1], Options(true, false), ExampleHash, true, 1, {}).0.images
  {
    var zero := ExampleHash("T");
    var one := ExampleHash("U");
    assert zero + ".png" != one + ".png" by {
      assert (zero + ".png")[0] != (one + ".png")[0];
    }
  }

  /** Processing `a` deletes the image of "T", although `b`, processed before it, still shows
      that title. */
  lemma AsWrittenDeletesSharedImage()
    ensures Processed(ExamplePosts()[0], Options(true, false)) && AlwaysRenders(ExamplePosts()[0].slug)
    ensures ExampleHash(ExamplePosts()[0].title) + ".png" !in
              GenerateAllOgpImages(ExampleStore(), ExamplePosts(), ["a", "b"], Options(true, false),
                                   ExampleHash, AlwaysRenders, 1).0.images
  {
    var entries := ExampleEntries();
    assert Entries(ExampleStore()) == entries;
    ExampleCleanup();
    ExampleStep2(Cleanup(ExampleStore(), entries, ["a", "b"], CurrentSlugs(ExamplePosts())).0);
  }

  /** Step 2 of the example: `b` is skipped, then `a` deletes the image of "T". */
  lemma ExampleStep2(st1: Store)
    requires st1.images == {ExampleHash("T") + ".png"}
    ensures ExampleHash("T") + ".png" !in
              ProcessPosts(st1, ExampleEntries(), ExamplePosts(), Options(true, false), ExampleHash, AlwaysRenders, 1, {}).0.images
  {
    var posts := ExamplePosts();
    var entries := ExampleEntries();
    var opts := Options(true, false);
    var rest := posts[1..];
    assert rest[0] == posts[1] && rest[1..] == [];
    var st3 := ProcessPost(st1, entries, posts[1], opts, ExampleHash, true, 1, {}).0;
    ExampleSecondPost(st1);
    calc {
      ProcessPosts(st1, entries, posts, opts, ExampleHash, AlwaysRenders, 1, {}).0;
      { ProcessPostsCons(st1, entries, posts, opts, ExampleHash, AlwaysRenders, 1, {}); }
      ProcessPosts(ProcessPost(st1, entries, posts[0], opts, ExampleHash, true, 1, {}).0,
                   entries, rest, opts, ExampleHash, AlwaysRenders, 1, {}).0;
      { ExampleFirstPost(st1); }
      ProcessPosts(st1, entries, rest, opts, ExampleHash, AlwaysRenders, 1, {}).0;
      { ProcessPostsCons(st1, entries, rest, opts, ExampleHash, AlwaysRenders, 1, {}); }
      ProcessPosts(st3, entries, [], opts, ExampleHash, AlwaysRenders, 1, {}).0;
      st3;
    }
  }

  /** One step of the loop over the posts. */
  lemma ProcessPostsCons(st: Store, snapshot: map<string, ManifestEntry>, posts: seq<PostInfo>, opts: Options,
                         h: string -> string, renderOk: string -> bool, now: int, keep: set<string>)
    requires |posts| > 0
    ensures ProcessPosts(st, snapshot, posts, opts, h, renderOk, now, keep).0 ==
            ProcessPosts(ProcessPost(st, snapshot, posts[0], opts, h, renderOk(posts[0].slug), now, keep).0,
                         snapshot, posts[1..], opts, h, renderOk, now, keep).0
  {
  }

  /** With the fix the image of "T" is still there after the same run. */
  lemma FixedKeepsSharedImage()
    ensures ExampleHash(ExamplePosts()[0].title) + ".png" in
              GenerateAllOgpImagesFixed(ExampleStore(), ExamplePosts(), ["a", "b"], Options(true, false),
                                        ExampleHash, AlwaysRenders, 1).0.images
  {
    assert Entries(ExampleStore()) == ExampleEntries();
    FixedKeepsImageAt(ExampleStore(), ExamplePosts(), ["a", "b"], Options(true, false), ExampleHash, AlwaysRenders, 1, 0);
  }

  /** The fixed run keeps the image of the post at index `i`. */
  lemma FixedKeepsImageAt(st: Store, posts: seq<PostInfo>, keys: seq<string>, opts: Options,
                          h: string -> string, renderOk: string -> bool, now: int, i: nat)
    requires forall k :: k in keys <==> k in Entries(st)
    requires i < |posts| && Processed(posts[i], opts) && renderOk(posts[i].slug)
    ensures h(posts[i].title) + ".png" in GenerateAllOgpImagesFixed(st, posts, keys, opts, h, renderOk, now).0.images
  {
    assert posts[i] in posts;
  }

  /** What the dev-server middleware does with a request: hand it on, or generate an image
      for a post first. */
  datatype Action = Pass | Generate(slug: string, title: string)

  /** `url.startsWith('/ogp/') && url.endsWith('.png')` for a request that has a URL. */
  predicate IsImageRequest(url: Option<string>) {
    url.Some? && StartsWith(url.value, "/ogp/") && EndsWith(url.value, ".png")
  }

  /** `url.replace('/ogp/', '').replace('.png', '')`: the hash or slug a request names. */
  function RequestedName(url: string): string {
    ReplaceFirst(ReplaceFirst(url, "/ogp/", ""), ".png", "")
  }

  /** The middleware's decision. A request that is not for a PNG under `/ogp/`, or whose file exists,
      is handed on. A hash names the first listed post without a thumbnail whose title has that
      hash; any other name is a slug, and its post is generated unless it has a thumbnail. */
  function Decide(parse: string -> map<string, string>, blog: seq<Node>, scraps: seq<Node>, st: Store,
                  h: string -> string, url: Option<string>): (r: Action)
    ensures r.Generate? ==> IsImageRequest(url) && RequestedName(url.value) + ".png" !in st.images
    ensures r.Generate? && IsHash(RequestedName(url.value)) ==>
              h(r.title) == RequestedName(url.value)
              && PostInfo(r.slug, r.title, false) in GetAllContentPosts(parse, blog, scraps)
    ensures r.Generate? && !IsHash(RequestedName(url.value)) ==>
              r.slug == RequestedName(url.value)
              && GetPostBySlug(parse, blog, scraps, r.slug) == Some(PostInfo(r.slug, r.title, false))
  {
    if !IsImageRequest(url) then Pass
    else
      var name := RequestedName(url.value);
      if ImageFile(name) in st.images then Pass
      else if IsHash(name) then
        var found := GetPostByTitleHash(GetAllContentPosts(parse, blog, scraps), h, name);
        if found.None? then Pass else Generate(found.value.slug, found.value.title)
      else
        match GetPostBySlug(parse, blog, scraps, name)
        case None => Pass
        case Some(p) => if p.hasThumbnail then Pass else Generate(name, p.title)
  }

  /** The store after the middleware has handled a request; `ok` says whether rendering
      succeeds. The request is handed on in every case. */
  function Serve(parse: string -> map<string, string>, blog: seq<Node>, scraps: seq<Node>, st: Store,
                 h: string -> string, url: Option<string>, now: int, ok: bool): (r: Store)
    ensures st.images <= r.images
    ensures !IsImageRequest(url) ==> r == st
    ensures forall s :: s in Entries(st) ==> s in Entries(r)
  {
    match Decide(parse, blog, scraps, st, h, url)
    case Pass => st
    case Generate(slug, title) => GenerateOgpImage(st, h, slug, title, now, ok).1
  }

  /** A missing image requested by hash is generated under that hash exactly when some listed
      post without a thumbnail has a title with that hash. */
  lemma HashRequestServed(parse: string -> map<string, string>, blog: seq<Node>, scraps: seq<Node>, st: Store,
                          h: string -> string, url: string, now: int)
    requires StartsWith(url, "/ogp/") && EndsWith(url, ".png")
    requires IsHash(RequestedName(url)) && RequestedName(url) + ".png" !in st.images
    ensures var posts := GetAllContentPosts(parse, blog, scraps);
            RequestedName(url) + ".png" in Serve(parse, blog, scraps, st, h, Some(url), now, true).images
            <==> exists p :: p in posts && !p.hasThumbnail && h(p.title) == RequestedName(url)
  {
    var posts := GetAllContentPosts(parse, blog, scraps);
    var name := RequestedName(url);
    var found := GetPostByTitleHash(posts, h, name);
    if found.None? {
      assert Serve(parse, blog, scraps, st, h, Some(url), now, true) == st;
    } else {
      assert found.value in posts;
    }
  }

  /** A missing image requested by slug stays missing: the generated image is stored under
      the hash of the title, and a name that is not a hash is never a hash. */
  lemma LegacyRequestStaysMissing(parse: string -> map<string, string>, blog: seq<Node>, scraps: seq<Node>, st: Store,
                                  h: string -> string, url: string, now: int, ok: bool)
    requires ValidDigest(h)
    requires !IsHash(RequestedName(url)) && RequestedName(url) + ".png" !in st.images
    ensures RequestedName(url) + ".png" !in Serve(parse, blog, scraps, st, h, Some(url), now, ok).images
  {
    var name := RequestedName(url);
    var a := Decide(parse, blog, scraps, st, h, Some(url));
    if a.Generate? {
      ImageFileInjective(name, h(a.title));
      assert IsHash(h(a.title));
    }
  }

  /** The public path of a hash is a request the middleware handles, and names that hash. */
  lemma RequestedNameOfImagePath(hash: string)
    requires IsHash(hash)
    ensures IsImageRequest(Some(ImagePath(hash)))
    ensures RequestedName(ImagePath(hash)) == hash
  {
    assert ImagePath(hash) == "/ogp/" + (hash + ".png");
    ReplaceFirstAtStart("/ogp/", hash + ".png");
    ReplaceFirstAtEnd(hash, ".png");
  }
}
