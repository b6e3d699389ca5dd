/** `src/utils/images.ts`: resolving the image path written in a post to a bundled image.
    `import.meta.glob` over `src/` becomes a list of entries, each a file path and the image
    metadata that is its module's default; loading the module is not modelled. */
module Images {
  import opened Strings

  /** An `ImageMetadata` object, known by the file it was built from. */
  datatype ImageMetadata = ImageMetadata(file: string)

  /** `src: ImageMetadata | string` */
  datatype Src = Meta(meta: ImageMetadata) | Path(path: string)

  /** One entry of the glob: the file path and the image metadata its module provides. */
  datatype GlobEntry = GlobEntry(path: string, image: ImageMetadata)

  /** `{ resolvedSrc, isRemote }` */
  datatype Resolved = Resolved(resolvedSrc: Src, isRemote: bool)

  /** A path the browser loads as it is: an http or https URL, or a path under `public/`. */
  predicate IsRemotePath(s: string) {
    StartsWith(s, "http://") || StartsWith(s, "https://") || StartsWith(s, "/")
  }

  /** `src.replace(/^\./, '')`: one leading dot goes. */
  function SearchPath(src: string): (r: string)
    ensures StartsWith(src, ".") ==> [src[0]] + r == src
    ensures !StartsWith(src, ".") ==> r == src
  {
    if StartsWith(src, ".") then src[1..] else src
  }

  /** `Object.entries(images).find(([path]) => path.endsWith(searchPath))`, as a position. */
  function FindEntry(images: seq<GlobEntry>, search: string): (r: Option<nat>)
    ensures r.Some? ==> r.value < |images| && EndsWith(images[r.value].path, search)
    ensures r.Some? ==> forall j :: 0 <= j < r.value ==> !EndsWith(images[j].path, search)
    ensures r.None? ==> forall j :: 0 <= j < |images| ==> !EndsWith(images[j].path, search)
  {
    if |images| == 0 then None
    else if EndsWith(images[0].path, search) then Some(0)
    else
      match FindEntry(images[1..], search)
      case None => None
      case Some(k) => Some(k + 1)
  }

  /** `resolveImage(src)`: metadata is returned as it is; URLs and public paths are remote;
      any other path is looked up by its tail among the bundled images and, when nothing
      matches, returned as it is. */
  function ResolveImage(images: seq<GlobEntry>, src: Src): (r: Resolved)
    ensures src.Meta? ==> r == Resolved(src, false)
    ensures r.isRemote <==> src.Path? && IsRemotePath(src.path)
    ensures src.Path? && !IsRemotePath(src.path) ==>
              (r.resolvedSrc.Meta? <==> exists j :: 0 <= j < |images| && EndsWith(images[j].path, SearchPath(src.path)))
    ensures r.resolvedSrc.Path? ==> r.resolvedSrc == src
  {
    if src.Meta? then Resolved(src, false)
    else if IsRemotePath(src.path) then Resolved(src, true)
    else
      match FindEntry(images, SearchPath(src.path))
      case Some(k) => Resolved(Meta(images[k].image), false)
      case None => Resolved(src, false)
  }

  /** The image a local path resolves to is that of the first entry whose path ends with it. */
  lemma ResolvesToFirstMatch(images: seq<GlobEntry>, src: string, k: nat)
    requires !IsRemotePath(src)
    requires k < |images| && EndsWith(images[k].path, SearchPath(src))
    requires forall j :: 0 <= j < k ==> !EndsWith(images[j].path, SearchPath(src))
    ensures ResolveImage(images, Path(src)) == Resolved(Meta(images[k].image), false)
  {
    var f := FindEntry(images, SearchPath(src));
    assert f.Some?;
    assert f.value == k;
  }

  /** `./a.png` looks for `/a.png`: it matches `a.png` in any directory, never `banana.png`. */
  lemma DotSlashMatchesWholeName(path: string)
    requires EndsWith(path, SearchPath("./a.png"))
    ensures |path| >= 6 && path[|path| - 6] == '/'
  {
    assert SearchPath("./a.png") == "/a.png";
  }

  /** A path written without `./` is matched by its tail alone: `a.png` resolves to
      `/src/assets/banana.png` when that file comes first in the glob. */
  lemma BareNameMatchesLongerName()
    ensures var images := [GlobEntry("/src/assets/banana.png", ImageMetadata("banana")),
                           GlobEntry("/src/assets/a.png", ImageMetadata("a"))];
            ResolveImage(images, Path("a.png")) == Resolved(Meta(ImageMetadata("banana")), false)
  {
    var images := [GlobEntry("/src/assets/banana.png", ImageMetadata("banana")),
                   GlobEntry("/src/assets/a.png", ImageMetadata("a"))];
    assert !StartsWith("a.png", "/");
    assert SearchPath("a.png") == "a.png";
    var p := "/src/assets/banana.png";
    assert p[|p| - 5..] == "a.png";
    ResolvesToFirstMatch(images, "a.png", 0);
  }
}
