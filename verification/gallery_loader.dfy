/** The gallery read from disk (app/lib/gallery-loader.ts): image files of
    the gallery directory become gallery images whose alt text is derived
    from the file name; an unreadable or image-less directory falls back to
    the built-in list. The directory listing is passed in. */
module GalleryLoader {

  import opened Wrappers
  import opened Text
  import opened GalleryImages

  /** `IMAGE_EXTENSIONS`. */
  const ImageExtensions: set<string> := {".jpg", ".jpeg", ".png", ".webp", ".gif", ".avif"}

  /** The alt text used when nothing is left of the file name. */
  const DefaultAlt := "Gallery image"

  /** The URL prefix of the public gallery directory. */
  const GalleryPath := "/gallary/"

  // ---------------------------------------------------------------------
  // Extensions

  /** The index of the last `.` of `s`, if any. */
  function LastDot(s: string): (r: Option<nat>)
    ensures r.Some? ==> r.value < |s| && s[r.value] == '.'
    ensures r.Some? ==> forall k | r.value < k < |s| :: s[k] != '.'
    ensures r.None? ==> forall k | 0 <= k < |s| :: s[k] != '.'
  {
    if s == [] then None
    else if s[|s| - 1] == '.' then Some(|s| - 1)
    else LastDot(s[..|s| - 1])
  }

  /** The regular expression `\.[^/.]+$` matches at `p`: a dot followed by
      at least one character up to the end, none of them `/` or `.`. */
  predicate ExtensionAt(s: string, p: nat) {
    && p + 1 < |s| && s[p] == '.'
    && forall k | p < k < |s| :: s[k] != '.' && s[k] != '/'
  }

  /** `fileName.replace(/\.[^/.]+$/, "")`. */
  function StripExtension(name: string): (stem: string)
    ensures |stem| <= |name| && stem == name[..|stem|]
  {
    match LastDot(name)
    case None => name
    case Some(p) =>
      if p + 1 < |name| && forall k | p < k < |name| :: name[k] != '/' then name[..p] else name
  }

  /** A match of the pattern sits at the last dot, and nothing after it
      is `/`. */
  lemma ExtensionAtLastDot(name: string, p: nat)
    requires ExtensionAt(name, p)
    ensures LastDot(name) == Some(p)
  {
  }

  /** The stem is the name without its extension when the pattern matches,
      and the whole name when it does not. */
  lemma StripExtensionSpec(name: string)
    ensures forall p: nat | ExtensionAt(name, p) :: StripExtension(name) == name[..p]
    ensures (forall p: nat :: !ExtensionAt(name, p)) ==> StripExtension(name) == name
  {
    forall p: nat | ExtensionAt(name, p) ensures StripExtension(name) == name[..p] {
      ExtensionAtLastDot(name, p);
    }
    var d := LastDot(name);
    if d.Some? && d.value + 1 < |name| && forall k | d.value < k < |name| :: name[k] != '/' {
      assert ExtensionAt(name, d.value);
    }
  }

  /** `path.extname` of a name without `/`: from the last dot to the end,
      unless the name has no dot, starts with its only dot, or is `..`. */
  function Extname(name: string): (ext: string)
    ensures ext == [] || (ext[0] == '.' && |ext| <= |name| && ext == name[|name| - |ext|..])
  {
    match LastDot(name)
    case None => ""
    case Some(p) => if p == 0 || name == ".." then "" else name[p..]
  }

  /** `IMAGE_EXTENSIONS.has(path.extname(fileName).toLowerCase())`. Every
      extension in the set is ASCII, and no other character lower-cases to
      a lone ASCII letter of it, so ASCII lower-casing decides membership
      exactly. */
  predicate IsImageFile(name: string) {
    LowerAsciiString(Extname(name)) in ImageExtensions
  }

  /** The name has a non-empty stem in front of its last dot, at `p`, and
      after it one of the six extensions in any letter case. */
  predicate ImageExtensionAt(name: string, p: nat) {
    && 0 < p < |name| && name[p] == '.' && (forall k | p < k < |name| :: name[k] != '.')
    && LowerAsciiString(name[p..]) in ImageExtensions
  }

  /** Every image extension is a dot and at least three more characters. */
  lemma ImageExtensionsLong(ext: string)
    requires ext in ImageExtensions
    ensures |ext| >= 4 && ext[0] == '.'
  {
  }

  /** An image file is exactly a name with an image extension. */
  lemma ImageFileSpec(name: string)
    ensures IsImageFile(name) <==> exists p: nat :: ImageExtensionAt(name, p)
  {
    var d := LastDot(name);
    var ext := Extname(name);
    if IsImageFile(name) {
      ImageExtensionsLong(LowerAsciiString(ext));
      assert ImageExtensionAt(name, d.value);
    }
    forall p: nat | ImageExtensionAt(name, p) ensures IsImageFile(name) {
      assert d == Some(p);
      ImageExtensionsLong(LowerAsciiString(name[p..]));
      assert |name| >= 5;
      assert ext == name[p..];
    }
  }

  // ---------------------------------------------------------------------
  // Alt text

  predicate IsSeparator(c: char) {
    c == '-' || c == '_'
  }

  /** `stem.replace(/[-_]+/g, " ")` read one character at a time: a
      separator turns into a space when it starts a run (`afterSeparator`
      false) and into nothing when it continues one; every other character
      is kept. */
  function CollapseFrom(s: string, afterSeparator: bool): (r: string)
    decreases |s|
  {
    if s == [] then []
    else if IsSeparator(s[0]) then
      (if afterSeparator then [] else " ") + CollapseFrom(s[1..], true)
    else [s[0]] + CollapseFrom(s[1..], false)
  }

  /** `stem.replace(/[-_]+/g, " ")`. */
  function CollapseSeparators(s: string): (r: string)
    ensures forall k | 0 <= k < |r| :: !IsSeparator(r[k])
  {
    CollapseFromHasNoSeparator(s, false);
    CollapseFrom(s, false)
  }

  lemma {:induction false} CollapseFromHasNoSeparator(s: string, afterSeparator: bool)
    ensures forall k | 0 <= k < |CollapseFrom(s, afterSeparator)| :: !IsSeparator(CollapseFrom(s, afterSeparator)[k])
    decreases |s|
  {
    if s != [] {
      CollapseFromHasNoSeparator(s[1..], IsSeparator(s[0]));
    }
  }

  /** Whether the scan is inside a run after reading `s`. */
  function EndsInRun(s: string, afterSeparator: bool): bool
    decreases |s|
  {
    if s == [] then afterSeparator else EndsInRun(s[1..], IsSeparator(s[0]))
  }

  /** After a non-empty text the scan is inside a run exactly when the
      text ends with a separator. */
  lemma {:induction false} EndsInRunLast(s: string, afterSeparator: bool)
    requires s != []
    ensures EndsInRun(s, afterSeparator) == IsSeparator(s[|s| - 1])
    decreases |s|
  {
    if |s| > 1 {
      EndsInRunLast(s[1..], IsSeparator(s[0]));
    }
  }

  /** The scan over a concatenation is the scan over the first part, then
      the scan over the second part in the state the first one left. */
  lemma {:induction false} CollapseFromConcat(u: string, w: string, afterSeparator: bool)
    ensures CollapseFrom(u + w, afterSeparator) ==
      CollapseFrom(u, afterSeparator) + CollapseFrom(w, EndsInRun(u, afterSeparator))
    decreases |u|
  {
    if u == [] {
      assert u + w == w;
    } else {
      assert (u + w)[1..] == u[1..] + w;
      CollapseFromConcat(u[1..], w, IsSeparator(u[0]));
    }
  }

  /** A stem without `-` or `_` is left as it is. */
  lemma {:induction false} CollapseKeepsPlainText(s: string)
    requires forall k | 0 <= k < |s| :: !IsSeparator(s[k])
    ensures CollapseSeparators(s) == s
    decreases |s|
  {
    if s != [] {
      assert forall k | 0 <= k < |s| - 1 :: s[1..][k] == s[k + 1];
      CollapseKeepsPlainText(s[1..]);
    }
  }

  /** Collapsing distributes over a concatenation whose first part does not
      end inside a run. */
  lemma CollapseConcat(u: string, w: string)
    requires u == [] || !IsSeparator(u[|u| - 1])
    ensures CollapseSeparators(u + w) == CollapseSeparators(u) + CollapseSeparators(w)
  {
    CollapseFromConcat(u, w, false);
    if u != [] {
      EndsInRunLast(u, false);
    }
  }

  /** Inside a run, further separators produce nothing. */
  lemma {:induction false} CollapseInsideRun(run: string)
    requires forall k | 0 <= k < |run| :: IsSeparator(run[k])
    ensures CollapseFrom(run, true) == []
    decreases |run|
  {
    if run != [] {
      assert forall k | 0 <= k < |run| - 1 :: run[1..][k] == run[k + 1];
      CollapseInsideRun(run[1..]);
    }
  }

  /** A run followed by something else, or by nothing, turns into one
      space. */
  lemma CollapseRunPrefix(run: string, v: string)
    requires run != [] && forall k | 0 <= k < |run| :: IsSeparator(run[k])
    requires v == [] || !IsSeparator(v[0])
    ensures CollapseFrom(run + v, false) == " " + CollapseFrom(v, false)
  {
    CollapseFromConcat(run, v, false);
    EndsInRunLast(run, false);
    var rest := run[1..];
    assert forall k | 0 <= k < |rest| :: rest[k] == run[k + 1];
    CollapseInsideRun(rest);
    assert CollapseFrom(run, false) == " ";
    assert CollapseFrom(v, true) == CollapseFrom(v, false);
  }

  /** A maximal run of separators between two other parts turns into a
      single space. */
  lemma CollapseRun(u: string, run: string, v: string)
    requires u == [] || !IsSeparator(u[|u| - 1])
    requires run != [] && forall k | 0 <= k < |run| :: IsSeparator(run[k])
    requires v == [] || !IsSeparator(v[0])
    ensures CollapseSeparators(u + run + v) ==
      CollapseSeparators(u) + " " + CollapseSeparators(v)
  {
    assert u + run + v == u + (run + v);
    CollapseFromConcat(u, run + v, false);
    if u != [] {
      EndsInRunLast(u, false);
    }
    CollapseRunPrefix(run, v);
  }

  /** `toAltFromFilename`. */
  function AltFromFilename(fileName: string): (alt: string)
    ensures alt != []
    ensures !IsSpace(alt[0]) && !IsSpace(alt[|alt| - 1])
    ensures forall k | 0 <= k < |alt| :: !IsSeparator(alt[k])
  {
    var collapsed := CollapseSeparators(StripExtension(fileName));
    TrimKeepsNoSeparator(collapsed);
    DefaultAltIsPlain();
    var text := Trim(collapsed);
    if text == [] then DefaultAlt else text
  }

  lemma TrimKeepsNoSeparator(t: string)
    requires forall k | 0 <= k < |t| :: !IsSeparator(t[k])
    ensures forall k | 0 <= k < |Trim(t)| :: !IsSeparator(Trim(t)[k])
  {
    var lead := LeadingSpaces(t);
    forall k | 0 <= k < |Trim(t)| ensures !IsSeparator(Trim(t)[k]) {
      assert Trim(t)[k] == t[lead + k];
    }
  }

  lemma DefaultAltIsPlain()
    ensures !IsSpace(DefaultAlt[0]) && !IsSpace(DefaultAlt[|DefaultAlt| - 1])
    ensures forall k | 0 <= k < |DefaultAlt| :: !IsSeparator(DefaultAlt[k])
  {
  }

  /** `s` holds whitespace only (or nothing). */
  predicate Blank(s: string) {
    forall k | 0 <= k < |s| :: IsSpace(s[k])
  }

  /** A file name that is blank once its extension and separators are gone
      gets the default alt text; any other gets the trimmed text. */
  lemma AltFallback(fileName: string)
    ensures var text := CollapseSeparators(StripExtension(fileName));
      AltFromFilename(fileName) == if Blank(text) then DefaultAlt else Trim(text)
  {
    var text := CollapseSeparators(StripExtension(fileName));
    assert Trim(text) == [] <==> Blank(text);
  }

  // ---------------------------------------------------------------------
  // Directory listing

  /** One directory entry: its name and whether it is a regular file. */
  datatype DirEntry = DirEntry(name: string, isFile: bool)

  /** The names of the regular image files, in directory order. */
  function ImageFileNames(entries: seq<DirEntry>): (names: seq<string>)
    ensures forall f | f in names :: IsImageFile(f) && DirEntry(f, true) in entries
    ensures forall e | e in entries && e.isFile && IsImageFile(e.name) :: e.name in names
  {
    if entries == [] then []
    else
      var rest := ImageFileNames(entries[1..]);
      assert forall e | e in entries[1..] :: e in entries;
      assert forall e | e in entries :: e == entries[0] || e in entries[1..];
      if entries[0].isFile && IsImageFile(entries[0].name) then [entries[0].name] + rest else rest
  }

  /** The gallery image of one file. */
  function ToGalleryImage(fileName: string): (image: GalleryImage)
    ensures image.src == GalleryPath + fileName
    ensures image.alt == AltFromFilename(fileName)
  {
    GalleryImage(GalleryPath + fileName, AltFromFilename(fileName))
  }

  /** `getGalleryImages` with the directory listing passed in (`None` when
      reading the directory throws). */
  function GetGalleryImages(listing: Option<seq<DirEntry>>): (images: seq<GalleryImage>)
    ensures images != []
    ensures listing.None? ==> images == BuiltInImages
    ensures listing.Some? && ImageFileNames(listing.value) == [] ==> images == BuiltInImages
    ensures listing.Some? && ImageFileNames(listing.value) != [] ==>
      var names := ImageFileNames(listing.value);
      && |images| == |names|
      && forall i | 0 <= i < |names| :: images[i] == ToGalleryImage(names[i])
  {
    if listing.None? then BuiltInImages
    else
      var names := ImageFileNames(listing.value);
      var local := seq(|names|, i requires 0 <= i < |names| => ToGalleryImage(names[i]));
      if |local| > 0 then local else BuiltInImages
  }

  /** Every image of a readable directory comes from a regular image file
      of it, and every such file has its image. */
  lemma GalleryFromDirectory(entries: seq<DirEntry>)
    requires ImageFileNames(entries) != []
    ensures forall image | image in GetGalleryImages(Some(entries)) ::
      exists e | e in entries :: e.isFile && IsImageFile(e.name) && image == ToGalleryImage(e.name)
    ensures forall e | e in entries && e.isFile && IsImageFile(e.name) ::
      ToGalleryImage(e.name) in GetGalleryImages(Some(entries))
  {
    var names := ImageFileNames(entries);
    var images := GetGalleryImages(Some(entries));
    forall image | image in images
      ensures exists e | e in entries :: e.isFile && IsImageFile(e.name) && image == ToGalleryImage(e.name)
    {
      var i :| 0 <= i < |images| && images[i] == image;
      assert names[i] in names;
      assert DirEntry(names[i], true) in entries;
    }
    forall e | e in entries && e.isFile && IsImageFile(e.name)
      ensures ToGalleryImage(e.name) in images
    {
      var i :| 0 <= i < |names| && names[i] == e.name;
      assert images[i] == ToGalleryImage(e.name);
    }
  }
}
