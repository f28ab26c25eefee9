/** The fixed table from lower-case file extension to content type, and the
    content type the handler gives a served path. */
module Mime {
  import opened Paths

  /** Every extension the table knows, with its content type. */
  const MimeTypes: map<string, string> := map[
    ".html" := "text/html",
    ".js" := "application/javascript",
    ".css" := "text/css",
    ".json" := "application/json",
    ".png" := "image/png",
    ".jpg" := "image/jpeg",
    ".jpeg" := "image/jpeg",
    ".gif" := "image/gif",
    ".webp" := "image/webp",
    ".svg" := "image/svg+xml",
    ".ico" := "image/x-icon",
    ".txt" := "text/plain",
    ".pdf" := "application/pdf",
    ".woff" := "font/woff",
    ".woff2" := "font/woff2"
  ]

  /** The content type of anything the table does not know. */
  const DefaultType := "application/octet-stream"

  const HtmlType := "text/html"

  /** The table's entry for the extension, or the default when there is
      none. */
  function TypeOfExtension(extension: string): (r: string)
    ensures extension in MimeTypes ==> r == MimeTypes[extension]
    ensures extension !in MimeTypes ==> r == DefaultType
  {
    if extension in MimeTypes && MimeTypes[extension] != "" then MimeTypes[extension]
    else DefaultType
  }

  /** The content type of a served path: its extension, lower-cased, looked
      up in the table. It is one of the table's types or the default, it is
      the default exactly when the table lacks the lower-cased extension,
      and the empty path has no extension. */
  function ContentTypeOf(p: Path): (r: string)
    ensures r in MimeTypes.Values || r == DefaultType
    ensures r == DefaultType <==> ToLowerAscii(ExtName(p)) !in MimeTypes
    ensures p == [] ==> r == DefaultType
  {
    DefaultIffUnmapped(ToLowerAscii(ExtName(p)));
    TypeOfExtension(ToLowerAscii(ExtName(p)))
  }

  /** Every key is a lower-case extension as `extname` returns it: a '.'
      followed by at least one character and no further '.'. */
  lemma TableKeysAreExtensions()
    ensures forall k :: k in MimeTypes ==>
      |k| >= 2 && k[0] == '.' && '.' !in k[1..] && IsLower(k)
  {
    forall k | k in MimeTypes
      ensures |k| >= 2 && k[0] == '.' && '.' !in k[1..] && IsLower(k)
    {
    }
  }

  /** No entry maps to the default type, so the default is given exactly
      to the extensions the table lacks. */
  lemma DefaultIffUnmapped(extension: string)
    ensures TypeOfExtension(extension) == DefaultType <==> extension !in MimeTypes
  {
    assert forall k :: k in MimeTypes ==> MimeTypes[k] != DefaultType;
  }

  /** A path whose last segment is a stem followed by an extension gets the
      type of that extension, lower-cased. */
  lemma ContentTypeOfSuffix(p: Path, stem: string, ext: string)
    requires |p| > 0 && p[|p| - 1] == stem + ext
    requires stem != [] && |ext| > 0 && ext[0] == '.' && '.' !in ext[1..] && stem + ext != ".."
    ensures ContentTypeOf(p) == TypeOfExtension(ToLowerAscii(ext))
  {
    ExtOfNameOf(stem, ext);
  }

  // Single table lookups, one per lemma: each needs the key told apart
  // from the table's other keys.

  lemma HtmlLookup()
    ensures TypeOfExtension(ToLowerAscii(".html")) == HtmlType
  {
  }

  lemma ScriptLookup()
    ensures TypeOfExtension(ToLowerAscii(".js")) == "application/javascript"
  {
  }

  lemma PngLookup()
    ensures TypeOfExtension(ToLowerAscii(".PNG")) == TypeOfExtension(ToLowerAscii(".png")) == "image/png"
  {
    assert ToLowerAscii(".PNG") == ".png";
  }

  lemma BinLookup()
    ensures TypeOfExtension(ToLowerAscii(".bin")) == TypeOfExtension(ToLowerAscii("")) == DefaultType
  {
    assert ToLowerAscii("") == "";
  }

  /** Both spellings of JPEG share one content type. */
  lemma JpegSpellings()
    ensures MimeTypes[".jpg"] == MimeTypes[".jpeg"] == "image/jpeg"
  {
  }

  /** The content type depends on the last segment only up to case. */
  lemma ContentTypeIgnoresCase(p: Path, q: Path)
    requires |p| > 0 && |q| > 0
    requires ToLowerAscii(p[|p| - 1]) == ToLowerAscii(q[|q| - 1])
    ensures ContentTypeOf(p) == ContentTypeOf(q)
  {
    var a, b := p[|p| - 1], q[|q| - 1];
    ExtOfNameLower(a);
    ExtOfNameLower(b);
  }

  /** A directory's default document is served as HTML. */
  lemma IndexIsHtml(dir: Path)
    ensures ContentTypeOf(dir + ["index.html"]) == HtmlType
  {
    ContentTypeOfSuffix(dir + ["index.html"], "index", ".html");
    HtmlLookup();
  }

  /** An upper-case ".PNG" is served as "image/png", like ".png". */
  lemma UpperCasePng(p: Path, stem: string)
    requires |p| > 0 && stem != [] && p[|p| - 1] == stem + ".PNG"
    ensures ContentTypeOf(p) == "image/png"
  {
    ContentTypeOfSuffix(p, stem, ".PNG");
    PngLookup();
  }

  /** An extension missing from the table, such as ".bin", gets the default. */
  lemma UnmappedIsDefault(p: Path, stem: string)
    requires |p| > 0 && stem != [] && p[|p| - 1] == stem + ".bin"
    ensures ContentTypeOf(p) == DefaultType
  {
    ContentTypeOfSuffix(p, stem, ".bin");
    BinLookup();
  }

  /** A last segment without '.' has no extension and gets the default. */
  lemma NoDotIsDefault(p: Path)
    requires |p| > 0 && '.' !in p[|p| - 1]
    ensures ContentTypeOf(p) == DefaultType
  {
    BinLookup();
  }
}
