/** `src/utils/ogpImageGenerator.ts`: the bookkeeping around generated OGP images. An image is
    stored under the hash of the title it shows (`public/ogp/<hash>.png`), and a manifest
    (`.cache/ogp-generated-manifest.json`) remembers, per slug, which hash was generated last.
    Rendering (satori, sharp, the font download) is a success flag; the clock is a parameter;
    MD5 is a parameter `h` from titles to digests. */
module OgpGenerator {
  import opened Strings

  predicate IsHexLower(c: char) {
    ('0' <= c <= '9') || ('a' <= c <= 'f')
  }

  /** `/^[a-f0-9]{16}$/`: the shape of a title hash. */
  predicate IsHash(s: string) {
    |s| == 16 && forall i :: 0 <= i < |s| ==> IsHexLower(s[i])
  }

  /** `generateTitleHash` is the first 16 hexadecimal digits of an MD5 digest. */
  ghost predicate ValidDigest(h: string -> string) {
    forall t :: IsHash(h(t))
  }

  /** `generatedAt` is an ISO date; it is kept here as milliseconds. */
  datatype ManifestEntry = ManifestEntry(titleHash: string, title: string, generatedAt: int)

  datatype Manifest = Manifest(version: int, entries: map<string, ManifestEntry>)

  /** The manifest file: absent, not valid JSON, or a manifest. */
  datatype StoredManifest = Missing | Unparsable | Stored(manifest: Manifest)

  /** The manifest file and the names of the files in `public/ogp`. */
  datatype Store = Store(manifest: StoredManifest, images: set<string>)

  const EMPTY_MANIFEST: Manifest := Manifest(1, map[])

  /** `loadManifest()`: a missing or unreadable file reads as an empty version-1 manifest. */
  function LoadManifest(s: StoredManifest): (r: Manifest)
    ensures s.Stored? ==> r == s.manifest
    ensures !s.Stored? ==> r == EMPTY_MANIFEST
  {
    if s.Stored? then s.manifest else EMPTY_MANIFEST
  }

  /** The entries a store's manifest reads as. */
  function Entries(st: Store): map<string, ManifestEntry> {
    LoadManifest(st.manifest).entries
  }

  /** `${titleHash}.png` inside `public/ogp`. */
  function ImageFile(hash: string): string {
    hash + ".png"
  }

  /** `/ogp/${titleHash}.png`, the public path of an image. */
  function ImagePath(hash: string): (r: string)
    ensures StartsWith(r, "/ogp/") && EndsWith(r, ".png")
  {
    var r := "/ogp/" + hash + ".png";
    assert r[..5] == "/ogp/";
    assert r[|r| - 4..] == ".png";
    r
  }

  /** Two hashes have the same public path only if they are equal. */
  lemma ImagePathInjective(a: string, b: string)
    requires ImagePath(a) == ImagePath(b)
    ensures a == b
  {
    assert a == ImagePath(a)[5..|ImagePath(a)| - 4];
    assert b == ImagePath(b)[5..|ImagePath(b)| - 4];
  }

  /** `getOgpImagePathBySlug(slug)`: the path of the image last generated for `slug`. */
  function GetOgpImagePathBySlug(st: Store, slug: string): (r: Option<string>)
    ensures r.None? <==> slug !in Entries(st)
    ensures r.Some? ==> r.value == ImagePath(Entries(st)[slug].titleHash)
  {
    var entries := Entries(st);
    if slug in entries then Some(ImagePath(entries[slug].titleHash)) else None
  }

  /** `ogpImageExistsByTitle(title)` */
  function OgpImageExistsByTitle(st: Store, h: string -> string, title: string): (r: bool)
    ensures r <==> h(title) + ".png" in st.images
  {
    ImageFile(h(title)) in st.images
  }

  /** `generateOgpImage(slug, { title })`. When rendering succeeds (`ok`) the image of the title
      is written, the manifest is re-read and its entry for `slug` set, and the path is returned;
      a failed render throws before anything is written. */
  function GenerateOgpImage(st: Store, h: string -> string, slug: string, title: string, now: int, ok: bool)
    : (r: (Option<string>, Store))
    ensures !ok ==> r.0.None? && r.1 == st
    ensures ok ==> r.0 == Some(ImagePath(h(title)))
    ensures ok ==> GetOgpImagePathBySlug(r.1, slug) == r.0
    ensures ok ==> OgpImageExistsByTitle(r.1, h, title)
    ensures ok ==> r.1.images == st.images + {h(title) + ".png"}
    ensures forall s :: s != slug ==> GetOgpImagePathBySlug(r.1, s) == GetOgpImagePathBySlug(st, s)
    ensures ok ==> Entries(r.1)[slug] == ManifestEntry(h(title), title, now)
    ensures forall s :: s != slug ==> (s in Entries(r.1) <==> s in Entries(st))
    ensures forall s :: s != slug && s in Entries(st) ==> Entries(r.1)[s] == Entries(st)[s]
  {
    if !ok then (None, st)
    else
      var hash := h(title);
      var m := LoadManifest(st.manifest);
      var m' := m.(entries := m.entries[slug := ManifestEntry(hash, title, now)]);
      (Some(ImagePath(hash)), Store(Stored(m'), st.images + {ImageFile(hash)}))
  }

  /** `deleteOgpImage(titleHash)`: removes the image if it exists and says whether it did. */
  function DeleteOgpImage(st: Store, hash: string): (r: (bool, Store))
    ensures r.0 <==> hash + ".png" in st.images
    ensures r.1.images == st.images - {hash + ".png"}
    ensures r.1.manifest == st.manifest
  {
    (ImageFile(hash) in st.images, st.(images := st.images - {ImageFile(hash)}))
  }

  /** A second deletion of the same image finds nothing to delete. */
  lemma DeleteOgpImageIdempotent(st: Store, hash: string)
    ensures var (_, st1) := DeleteOgpImage(st, hash);
            DeleteOgpImage(st1, hash) == (false, st1)
  {
    var st1 := DeleteOgpImage(st, hash).1;
    assert st1.images - {ImageFile(hash)} == st1.images;
  }

  /** `removeManifestEntry(slug)`: the manifest is re-read, loses the entry of `slug` and is
      saved. */
  function RemoveManifestEntry(st: Store, slug: string): (r: Store)
    ensures r.images == st.images && r.manifest.Stored?
    ensures GetOgpImagePathBySlug(r, slug).None?
    ensures forall s :: s != slug ==> GetOgpImagePathBySlug(r, s) == GetOgpImagePathBySlug(st, s)
    ensures forall s :: s != slug ==> (s in Entries(r) <==> s in Entries(st))
    ensures forall s :: s != slug && s in Entries(st) ==> Entries(r)[s] == Entries(st)[s]
  {
    var m := LoadManifest(st.manifest);
    st.(manifest := Stored(m.(entries := m.entries - {slug})))
  }

  /** The path returned by a generation is the path the manifest gives for the slug and the
      path computed from the title, and names an image that exists. */
  lemma GeneratedPathRoundTrip(st: Store, h: string -> string, slug: string, title: string, now: int)
    ensures var (path, st1) := GenerateOgpImage(st, h, slug, title, now, true);
            path.Some? && GetOgpImagePathBySlug(st1, slug) == path
            && path.value == ImagePath(h(title))
            && OgpImageExistsByTitle(st1, h, title)
  {
  }

  /** Removing an entry after generating it leaves the other slugs as they were before. */
  lemma GenerateThenRemove(st: Store, h: string -> string, slug: string, title: string, now: int, ok: bool)
    ensures var st1 := RemoveManifestEntry(GenerateOgpImage(st, h, slug, title, now, ok).1, slug);
            GetOgpImagePathBySlug(st1, slug).None?
            && forall s :: s != slug ==> GetOgpImagePathBySlug(st1, s) == GetOgpImagePathBySlug(st, s)
  {
  }
}
