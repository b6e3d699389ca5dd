/** `getThumbnail(slug, thumbnail, title)` of `src/utils/getThumbnail.ts`: the image a page
    shows for a post. A thumbnail set in the front matter wins; otherwise the image generated
    for the slug, then the image of the title's hash, and last an image named after the slug. */
module Thumbnail {
  import opened Strings
  import opened OgpGenerator
  import opened OgpImages

  /** `thumbnail` is `undefined` when absent; `title` is optional and an empty one is falsy. */
  function GetThumbnail(st: Store, h: string -> string, slug: string, thumbnail: Option<string>,
                        title: Option<string>): (r: string)
    ensures thumbnail.Some? ==> r == thumbnail.value
    ensures thumbnail.None? && slug in Entries(st) ==> Some(r) == GetOgpImagePathBySlug(st, slug)
    ensures thumbnail.None? && slug !in Entries(st) && title.Some? && title.value != "" ==> r == ImagePath(h(title.value))
    ensures thumbnail.None? && slug !in Entries(st) && (title.None? || title.value == "") ==> r == "/ogp/" + slug + ".png"
    ensures thumbnail.None? ==> StartsWith(r, "/ogp/") && EndsWith(r, ".png")
  {
    if thumbnail.Some? then thumbnail.value
    else
      match GetOgpImagePathBySlug(st, slug)
      case Some(path) => path
      case None =>
        if title.Some? && title.value != "" then ImagePath(h(title.value))
        else
          var r := "/ogp/" + slug + ".png";
          assert r[..5] == "/ogp/";
          assert r[|r| - 4..] == ".png";
          r
  }

  /** Once the build has generated the image of a post, the page points at exactly that image,
      whatever title it passes, and the image exists. */
  lemma ThumbnailAfterGeneration(st: Store, h: string -> string, slug: string, title: string, now: int,
                                 pageTitle: Option<string>)
    ensures var st1 := GenerateOgpImage(st, h, slug, title, now, true).1;
            GetThumbnail(st1, h, slug, None, pageTitle) == ImagePath(h(title))
            && h(title) + ".png" in st1.images
  {
  }

  /** Before the build has seen a post, its page points at the image of its title's hash, and
      the dev-server middleware produces that image on request. */
  lemma TitleFallbackIsServed(parse: string -> map<string, string>, blog: seq<Node>, scraps: seq<Node>,
                              st: Store, h: string -> string, slug: string, title: string, now: int)
    requires ValidDigest(h)
    requires slug !in Entries(st) && title != ""
    requires PostInfo(slug, title, false) in GetAllContentPosts(parse, blog, scraps)
    ensures var path := GetThumbnail(st, h, slug, None, Some(title));
            IsImageRequest(Some(path))
            && RequestedName(path) == h(title)
            && h(title) + ".png" in Serve(parse, blog, scraps, st, h, Some(path), now, true).images
  {
    var path := GetThumbnail(st, h, slug, None, Some(title));
    assert IsHash(h(title));
    RequestedNameOfImagePath(h(title));
    if h(title) + ".png" !in st.images {
      HashRequestServed(parse, blog, scraps, st, h, path, now);
    }
  }

  /** The last fallback names the slug, and the middleware never produces an image under a
      slug: such a thumbnail stays missing. A slug without `.` is assumed, so that the name
      the middleware extracts is the slug itself. */
  lemma SlugFallbackStaysMissing(parse: string -> map<string, string>, blog: seq<Node>, scraps: seq<Node>,
                                 st: Store, h: string -> string, slug: string, now: int, ok: bool)
    requires ValidDigest(h)
    requires slug !in Entries(st) && slug + ".png" !in st.images && !IsHash(slug)
    requires forall i :: 0 <= i < |slug| ==> slug[i] != '.'
    ensures var path := GetThumbnail(st, h, slug, None, None);
            RequestedName(path) == slug
            && slug + ".png" !in Serve(parse, blog, scraps, st, h, Some(path), now, ok).images
  {
    var path := GetThumbnail(st, h, slug, None, None);
    assert path == "/ogp/" + (slug + ".png");
    ReplaceFirstAtStart("/ogp/", slug + ".png");
    ReplaceFirstAtEnd(slug, ".png");
    LegacyRequestStaysMissing(parse, blog, scraps, st, h, path, now, ok);
  }
}
