/** The request handler of the static server: resolve a URL pathname
    against the served directory, fall back to the root `index.html` for
    anything not found (single-page-app routing), and report other errors
    as 500. The filesystem is a value; `Stat` and `ReadFile` look it up. */
module StaticServer {
  import opened Paths
  import opened Mime

  newtype byte = x: int | 0 <= x < 0x100
  type Bytes = seq<byte>

  /** What can sit at a path of the served directory. */
  datatype Entry =
    | File(content: Bytes)        // a regular file that reads
    | Dir                         // a directory
    | Unreadable(reason: string)  // stat sees a regular file, reading it fails
    | Inaccessible(reason: string) // stat itself fails with something other than "not found"

  type FileSystem = map<Path, Entry>

  /** The two kinds of failure the handler tells apart. */
  datatype ErrorKind = NotFound | Other(message: string)

  datatype Result<T> = Ok(value: T) | Err(error: ErrorKind)

  datatype FileInfo = FileInfo(isDirectory: bool)

  /** A filesystem call the handler makes, in order. */
  datatype FsCall = StatCall(path: Path) | ReadCall(path: Path)

  datatype Body = Content(bytes: Bytes) | Message(text: string)

  datatype Response = Response(status: int, body: Body, contentType: string)

  /** The response and the filesystem calls that produced it. */
  datatype Handled = Handled(response: Response, calls: seq<FsCall>)

  const IndexFile := "index.html"

  /** The content type a string body gets by default. */
  const TextPlain := "text/plain;charset=UTF-8"

  const NotFoundMessage := "找不到文件"

  const ServerErrorPrefix := "服務器錯誤: "

  /** The message a read of a directory fails with begins with this. */
  const IsADirectoryMessage := "Is a directory (os error 21)"

  /** The message a path resolved through something other than a directory
      fails with begins with this. */
  const NotADirectoryMessage := "Not a directory (os error 20)"

  /** The build directory the server is started on. */
  const PublicDir: Path := ["dist"]

  datatype Option<T> = None | Some(value: T)

  /** The error a path raises when it is resolved through the entry `e`,
      which is not a directory. */
  function ThroughMessage(e: Entry): string {
    if e.Inaccessible? then e.reason else NotADirectoryMessage
  }

  /** The error of the shortest proper prefix of `p` that is stored and is
      not a directory: resolving `p` stops there. None when every stored
      proper prefix is a directory. */
  function AncestorFault(fs: FileSystem, p: Path): (r: Option<string>)
    ensures r.None? <==> forall i :: 0 < i < |p| && p[..i] in fs ==> fs[p[..i]] == Dir
    ensures r.Some? ==> exists i :: 0 < i < |p| && p[..i] in fs && fs[p[..i]] != Dir &&
                                    r.value == ThroughMessage(fs[p[..i]]) &&
                                    forall j :: 0 < j < i && p[..j] in fs ==> fs[p[..j]] == Dir
    decreases |p|
  {
    if |p| <= 1 then None
    else
      var parent := p[..|p| - 1];
      assert forall i :: 0 < i < |parent| ==> parent[..i] == p[..i];
      match AncestorFault(fs, parent)
      case Some(m) => Some(m)
      case None =>
        if parent in fs && fs[parent] != Dir then Some(ThroughMessage(fs[parent])) else None
  }

  /** A child's path is clear exactly when its parent's path is clear and
      the parent, when stored, is a directory. */
  lemma AncestorFaultOfChild(fs: FileSystem, p: Path, name: Segment)
    ensures AncestorFault(fs, p + [name]).None? <==>
            AncestorFault(fs, p).None? && (p != [] && p in fs ==> fs[p] == Dir)
  {
    var q := p + [name];
    assert q[..|q| - 1] == p;
  }

  /** A regular file that reads: stored as readable, reached through
      directories only. */
  predicate Readable(fs: FileSystem, p: Path) {
    AncestorFault(fs, p).None? && p in fs && fs[p].File?
  }

  /** `Deno.stat` of `p`, written with a trailing separator when `slash`.
      A path through a stored non-directory fails with that entry's error;
      otherwise "not found" exactly when nothing is stored; an entry whose
      own `stat` fails gives its error; a trailing separator after
      anything but a directory fails with "not a directory". */
  function Stat(fs: FileSystem, p: Path, slash: bool): (r: Result<FileInfo>)
    ensures r == Err(NotFound) <==> AncestorFault(fs, p).None? && p !in fs
    ensures r.Ok? <==> AncestorFault(fs, p).None? && p in fs && !fs[p].Inaccessible? &&
                       (slash ==> fs[p] == Dir)
    ensures r.Ok? ==> r.value.isDirectory == (fs[p] == Dir)
    ensures AncestorFault(fs, p).Some? ==> r == Err(Other(AncestorFault(fs, p).value))
    ensures AncestorFault(fs, p).None? && p in fs && fs[p].Inaccessible? ==>
            r == Err(Other(fs[p].reason))
    ensures AncestorFault(fs, p).None? && p in fs && slash && !fs[p].Inaccessible? && fs[p] != Dir ==>
            r == Err(Other(NotADirectoryMessage))
  {
    match AncestorFault(fs, p)
    case Some(message) => Err(Other(message))
    case None =>
      if p !in fs then Err(NotFound)
      else match fs[p]
        case Dir => Ok(FileInfo(true))
        case Inaccessible(reason) => Err(Other(reason))
        case _ => if slash then Err(Other(NotADirectoryMessage)) else Ok(FileInfo(false))
  }

  /** `Deno.readFile`: the bytes of a readable regular file; "not found"
      exactly when the path is clear and nothing is stored; another error
      otherwise. */
  function ReadFile(fs: FileSystem, p: Path): (r: Result<Bytes>)
    ensures r == Err(NotFound) <==> AncestorFault(fs, p).None? && p !in fs
    ensures r.Ok? <==> Readable(fs, p)
    ensures r.Ok? ==> r.value == fs[p].content
    ensures AncestorFault(fs, p).Some? ==> r == Err(Other(AncestorFault(fs, p).value))
  {
    match AncestorFault(fs, p)
    case Some(message) => Err(Other(message))
    case None =>
      if p !in fs then Err(NotFound)
      else match fs[p]
        case File(content) => Ok(content)
        case Dir => Err(Other(IsADirectoryMessage))
        case Unreadable(reason) => Err(Other(reason))
        case Inaccessible(reason) => Err(Other(reason))
  }

  /** The pathname joined onto the root: "/" stands for "/index.html", so
      it is joined as the root's `index.html`; every other pathname is
      joined as its segments. */
  function RequestedPath(root: Path, pathname: string): (r: Path)
    ensures pathname == "/" ==> r == root + [IndexFile]
    ensures pathname != "/" ==> r == root + Segments(pathname)
  {
    SegmentsOfName(IndexFile);
    Join(root, if pathname == "/" then "/" + IndexFile else pathname)
  }

  /** `join` keeps a trailing separator of the pathname; "/" itself was
      replaced by "/index.html" and keeps none. The separator adds no
      segment: all it changes is this flag. */
  predicate JoinedWithSeparator(pathname: string)
    ensures JoinedWithSeparator(pathname) <==> pathname != "/" && EndsWithSeparator(pathname)
    ensures JoinedWithSeparator(pathname) ==>
            Segments(pathname) == Segments(pathname[..|pathname| - 1])
  {
    if pathname != "/" && EndsWithSeparator(pathname) then
      assert pathname == pathname[..|pathname| - 1] + "/";
      SegmentsDropTrailing(pathname[..|pathname| - 1]);
      true
    else false
  }

  /** The path the handler reads after `stat` succeeded: the candidate
      itself, or, when it is a directory, its `index.html` one segment
      below it. */
  function FinalPath(candidate: Path, info: FileInfo): (r: Path)
    ensures info.isDirectory ==> r == candidate + [IndexFile]
    ensures !info.isDirectory ==> r == candidate
  {
    JoinIndex(candidate);
    if info.isDirectory then Join(candidate, IndexFile) else candidate
  }

  /** The `catch` branch: "not found" falls back to the root `index.html`
      (404 when that read fails too); any other error is a 500 that quotes
      the error's message. */
  function Recover(fs: FileSystem, root: Path, error: ErrorKind, calls: seq<FsCall>): (h: Handled)
    ensures h.response.status in {200, 404, 500}
    ensures error.NotFound? ==> h.calls == calls + [ReadCall(Join(root, IndexFile))]
    ensures error.Other? ==> h.calls == calls && h.response.status == 500
  {
    match error
    case NotFound =>
      var index := Join(root, IndexFile);
      (match ReadFile(fs, index)
       case Ok(content) => Handled(Response(200, Content(content), HtmlType), calls + [ReadCall(index)])
       case Err(_) => Handled(Response(404, Message(NotFoundMessage), TextPlain), calls + [ReadCall(index)]))
    case Other(message) =>
      Handled(Response(500, Message(ServerErrorPrefix + message), TextPlain), calls)
  }

  /** The `try` block on the joined path `filePath` (with a trailing
      separator when `slash`): `stat`, step into a directory's
      `index.html`, read, and type the bytes by the extension of the path
      read; a thrown error goes to `Recover`. */
  function Resolve(fs: FileSystem, root: Path, filePath: Path, slash: bool): (h: Handled)
    ensures h.response.status in {200, 404, 500}
    ensures h.response.status == 200 <==> h.response.body.Content?
    ensures |h.calls| > 0 && h.calls[0] == StatCall(filePath)
  {
    match Stat(fs, filePath, slash)
    case Err(error) => Recover(fs, root, error, [StatCall(filePath)])
    case Ok(info) =>
      var finalPath := FinalPath(filePath, info);
      var calls := [StatCall(filePath), ReadCall(finalPath)];
      match ReadFile(fs, finalPath)
      case Err(error) => Recover(fs, root, error, calls)
      case Ok(content) => Handled(Response(200, Content(content), ContentTypeOf(finalPath)), calls)
  }

  /** `handleRequest` for a request whose URL has the given pathname,
      serving the directory `root`. */
  function HandleRequest(fs: FileSystem, root: Path, pathname: string): (h: Handled)
    ensures h.response.status in {200, 404, 500}
    ensures |h.calls| > 0 && h.calls[0] == StatCall(RequestedPath(root, pathname))
  {
    Resolve(fs, root, RequestedPath(root, pathname), JoinedWithSeparator(pathname))
  }

  /** The handler as the server runs it, on the build directory. */
  function Serve(fs: FileSystem, pathname: string): (r: Response)
    ensures r.status in {200, 404, 500}
  {
    HandleRequest(fs, PublicDir, pathname).response
  }

  // ---------------------------------------------------------------------
  // The outcome in terms of what is stored, independent of the calls.

  /** The path whose bytes are served: the candidate, or the `index.html`
      inside it when the candidate is a directory. */
  function Target(fs: FileSystem, candidate: Path): Path {
    if candidate in fs && fs[candidate] == Dir then candidate + [IndexFile] else candidate
  }

  /** `stat` of the candidate succeeds: it is reached through directories
      only, stored, its own `stat` works, and a trailing separator follows
      only a directory. */
  predicate Reachable(fs: FileSystem, candidate: Path, slash: bool) {
    AncestorFault(fs, candidate).None? && candidate in fs && !fs[candidate].Inaccessible? &&
    (slash ==> fs[candidate] == Dir)
  }

  /** The candidate resolves to a readable regular file. */
  predicate Serves(fs: FileSystem, candidate: Path, slash: bool) {
    Reachable(fs, candidate, slash) && Readable(fs, Target(fs, candidate))
  }

  /** The candidate is reached through directories only, and nothing is
      stored at it, or it is a directory without `index.html`. */
  predicate Missing(fs: FileSystem, candidate: Path) {
    AncestorFault(fs, candidate).None? && Target(fs, candidate) !in fs
  }

  /** The candidate runs through a stored non-directory, or something is
      stored at it that cannot be served from it. */
  predicate Fails(fs: FileSystem, candidate: Path, slash: bool) {
    AncestorFault(fs, candidate).Some? ||
    (candidate in fs &&
     (fs[candidate].Inaccessible? || (slash && fs[candidate] != Dir) ||
      (Target(fs, candidate) in fs && !fs[Target(fs, candidate)].File?)))
  }

  /** The message of the error a failing candidate raises. */
  function FailureMessage(fs: FileSystem, candidate: Path, slash: bool): string
    requires Fails(fs, candidate, slash)
  {
    match AncestorFault(fs, candidate)
    case Some(message) => message
    case None =>
      if fs[candidate].Inaccessible? then fs[candidate].reason
      else if slash && fs[candidate] != Dir then NotADirectoryMessage
      else match fs[Target(fs, candidate)]
        case Dir => IsADirectoryMessage
        case Unreadable(reason) => reason
        case Inaccessible(reason) => reason
  }

  /** Every candidate is in exactly one of the three situations. */
  lemma Trichotomy(fs: FileSystem, candidate: Path, slash: bool)
    ensures Serves(fs, candidate, slash) || Missing(fs, candidate) || Fails(fs, candidate, slash)
    ensures !(Serves(fs, candidate, slash) && Missing(fs, candidate))
    ensures !(Serves(fs, candidate, slash) && Fails(fs, candidate, slash))
    ensures !(Missing(fs, candidate) && Fails(fs, candidate, slash))
  {
    if candidate in fs && fs[candidate] == Dir {
      assert Target(fs, candidate) == candidate + [IndexFile];
      AncestorFaultOfChild(fs, candidate, IndexFile);
    }
  }

  /** The directory adjustment joins exactly one segment. */
  lemma JoinIndex(p: Path)
    ensures Join(p, IndexFile) == p + [IndexFile]
  {
    SegmentsOfName(IndexFile);
  }

  /** A candidate that resolves to a readable file is answered with 200,
      exactly that file's bytes and the content type of its extension,
      after one `stat` and one read and no fallback. */
  lemma ServedOutcome(fs: FileSystem, root: Path, pathname: string)
    requires Serves(fs, RequestedPath(root, pathname), JoinedWithSeparator(pathname))
    ensures var c := RequestedPath(root, pathname);
            var t := Target(fs, c);
            var h := HandleRequest(fs, root, pathname);
            h.response == Response(200, Content(fs[t].content), ContentTypeOf(t)) &&
            h.calls == [StatCall(c), ReadCall(t)]
  {
  }

  /** A candidate that is missing, or a directory without `index.html`,
      is answered from the root `index.html` as HTML when that file reads,
      and with 404 otherwise; the fallback read is the last call made. */
  lemma MissingOutcome(fs: FileSystem, root: Path, pathname: string)
    requires Missing(fs, RequestedPath(root, pathname))
    ensures var index := root + [IndexFile];
            var h := HandleRequest(fs, root, pathname);
            h.calls[|h.calls| - 1] == ReadCall(index) &&
            h.response == if Readable(fs, index)
                          then Response(200, Content(fs[index].content), HtmlType)
                          else Response(404, Message(NotFoundMessage), TextPlain)
  {
    JoinIndex(root);
    var c := RequestedPath(root, pathname);
    AncestorFaultOfChild(fs, c, IndexFile);
  }

  /** Any other failure is answered with 500 quoting the error's message,
      and no fallback read is made: the calls are the `stat` and, when
      that succeeded, the one read of the target. */
  lemma FailedOutcome(fs: FileSystem, root: Path, pathname: string)
    requires Fails(fs, RequestedPath(root, pathname), JoinedWithSeparator(pathname))
    ensures var c := RequestedPath(root, pathname);
            var slash := JoinedWithSeparator(pathname);
            var h := HandleRequest(fs, root, pathname);
            h.response == Response(500, Message(ServerErrorPrefix + FailureMessage(fs, c, slash)), TextPlain) &&
            h.calls == if Reachable(fs, c, slash) then [StatCall(c), ReadCall(Target(fs, c))] else [StatCall(c)]
  {
    var c := RequestedPath(root, pathname);
    AncestorFaultOfChild(fs, c, IndexFile);
  }

  // ---------------------------------------------------------------------
  // Consequences for particular requests.

  /** "/" is answered exactly as "/index.html" is. */
  lemma RootRequestIsIndexDocument(fs: FileSystem, root: Path)
    ensures HandleRequest(fs, root, "/") == HandleRequest(fs, root, "/index.html")
  {
    assert "/" + IndexFile == "/index.html";
    assert RequestedPath(root, "/") == RequestedPath(root, "/index.html");
  }

  /** The pathname that lists the segments of a path below the root, with
      or without a trailing separator, is joined back onto that path; only
      the second form keeps the separator. */
  lemma RenderedRequest(root: Path, rel: Path)
    requires ValidPath(rel) && rel != []
    ensures RequestedPath(root, Render(rel)) == root + rel && !JoinedWithSeparator(Render(rel))
    ensures RequestedPath(root, Render(rel) + "/") == root + rel && JoinedWithSeparator(Render(rel) + "/")
  {
    assert Render(rel) == "/" + rel[0] + Render(rel[1..]);
    SegmentsOfRender(rel);
    RenderEndsWithName(rel);
    SegmentsOfRenderSlash(rel);
  }

  /** Every readable regular file below the root is served, byte for byte,
      with the type of its extension, for the pathname that lists its
      segments. The pathname is compared as it arrives, still
      percent-encoded: a name the URL parser encodes is not reached this
      way (see `ExampleEncodedName`). */
  lemma ServesStoredFile(fs: FileSystem, root: Path, rel: Path)
    requires ValidPath(rel) && rel != []
    requires Readable(fs, root + rel)
    ensures HandleRequest(fs, root, Render(rel)).response ==
            Response(200, Content(fs[root + rel].content), ContentTypeOf(root + rel))
  {
    var c := root + rel;
    RenderedRequest(root, rel);
    assert Target(fs, c) == c;
    assert Serves(fs, c, false);
    ServedOutcome(fs, root, Render(rel));
  }

  /** A pathname that names a directory holding a readable `index.html` is
      answered with that document, as HTML. */
  lemma DirectoryServesIndex(fs: FileSystem, root: Path, pathname: string)
    requires var c := RequestedPath(root, pathname);
             c in fs && fs[c] == Dir && Readable(fs, c + [IndexFile])
    ensures var c := RequestedPath(root, pathname);
            HandleRequest(fs, root, pathname).response ==
            Response(200, Content(fs[c + [IndexFile]].content), HtmlType)
  {
    var c := RequestedPath(root, pathname);
    AncestorFaultOfChild(fs, c, IndexFile);
    ServedOutcome(fs, root, pathname);
    IndexIsHtml(c);
  }

  /** A pathname that runs through a stored regular file is answered with
      500 "not a directory", after the one `stat` and no fallback read. */
  lemma BelowFileFails(fs: FileSystem, root: Path, rel: Path, rest: Path)
    requires ValidPath(rel) && rel != [] && ValidPath(rest) && rest != []
    requires Readable(fs, root + rel)
    ensures HandleRequest(fs, root, Render(rel + rest)) ==
            Handled(Response(500, Message(ServerErrorPrefix + NotADirectoryMessage), TextPlain),
                    [StatCall(root + rel + rest)])
  {
    var c := root + rel + rest;
    var pathname := Render(rel + rest);
    RequestBelow(root, rel, rest);
    StatBelowFile(fs, root + rel, rest);
    assert HandleRequest(fs, root, pathname) == Resolve(fs, root, c, false);
    assert Resolve(fs, root, c, false) == Recover(fs, root, Other(NotADirectoryMessage), [StatCall(c)]);
  }

  /** A stored regular file named with a trailing separator is answered
      with 500 "not a directory", after the one `stat` and no fallback
      read. */
  lemma FileWithSeparatorFails(fs: FileSystem, root: Path, rel: Path)
    requires ValidPath(rel) && rel != []
    requires Readable(fs, root + rel)
    ensures HandleRequest(fs, root, Render(rel) + "/") ==
            Handled(Response(500, Message(ServerErrorPrefix + NotADirectoryMessage), TextPlain),
                    [StatCall(root + rel)])
  {
    RenderedRequest(root, rel);
    assert Stat(fs, root + rel, true) == Err(Other(NotADirectoryMessage));
  }

  /** The pathname listing `rel` and then `rest` is joined onto the root
      as the concatenation, without a trailing separator. */
  lemma RequestBelow(root: Path, rel: Path, rest: Path)
    requires ValidPath(rel) && rel != [] && ValidPath(rest)
    ensures RequestedPath(root, Render(rel + rest)) == root + rel + rest
    ensures !JoinedWithSeparator(Render(rel + rest))
  {
    ValidConcat(rel, rest);
    RenderedRequest(root, rel + rest);
    assert root + rel + rest == root + (rel + rest);
  }

  /** `stat` of a path strictly below a readable file fails with "not a
      directory". */
  lemma StatBelowFile(fs: FileSystem, p: Path, rest: Path)
    requires p != [] && rest != [] && Readable(fs, p)
    ensures Stat(fs, p + rest, false) == Err(Other(NotADirectoryMessage))
  {
    AncestorFaultBelow(fs, p, rest);
  }

  /** Every path strictly below a stored non-directory, reached through
      directories only, stops at that entry with its error. */
  lemma {:induction false} AncestorFaultBelow(fs: FileSystem, p: Path, rest: Path)
    requires p != [] && rest != []
    requires AncestorFault(fs, p).None? && p in fs && fs[p] != Dir
    ensures AncestorFault(fs, p + rest) == Some(ThroughMessage(fs[p]))
    decreases |rest|
  {
    var q := p + rest;
    var init := rest[..|rest| - 1];
    assert q[..|q| - 1] == p + init;
    if init != [] {
      AncestorFaultBelow(fs, p, init);
    } else {
      assert p + init == p;
    }
  }

  // ---------------------------------------------------------------------
  // A worked example on the build directory.

  /** A build with an `index.html` holding "A", an `app.js` holding "B"
      and an `assets/logo.png` holding the bytes FF D8. */
  function ExampleSite(): FileSystem {
    map[
      PublicDir := Dir,
      PublicDir + [IndexFile] := File([65]),
      PublicDir + ["app.js"] := File([66]),
      PublicDir + ["assets"] := Dir,
      PublicDir + ["assets", "logo.png"] := File([0xFF, 0xD8])
    ]
  }

  /** The lookups the example relies on. */
  lemma ExampleSiteEntries()
    ensures PublicDir in ExampleSite() && ExampleSite()[PublicDir] == Dir
    ensures Readable(ExampleSite(), PublicDir + [IndexFile])
    ensures ExampleSite()[PublicDir + [IndexFile]] == File([65])
    ensures Readable(ExampleSite(), PublicDir + ["app.js"])
    ensures ExampleSite()[PublicDir + ["app.js"]] == File([66])
    ensures Readable(ExampleSite(), PublicDir + ["assets", "logo.png"])
    ensures ExampleSite()[PublicDir + ["assets", "logo.png"]] == File([0xFF, 0xD8])
  {
    var fs := ExampleSite();
    var index, app, assets := PublicDir + [IndexFile], PublicDir + ["app.js"], PublicDir + ["assets"];
    var logo := assets + ["logo.png"];
    assert logo == PublicDir + ["assets", "logo.png"];
    assert app != index by { assert app[1][0] != index[1][0]; }
    assert app != assets by { assert app[1][1] != "assets"[1]; }
    assert |logo| == 3 && |app| == 2 && |index| == 2 && |assets| == 2;
    assert fs[assets] == Dir;
    AncestorFaultOfChild(fs, PublicDir, IndexFile);
    AncestorFaultOfChild(fs, PublicDir, "app.js");
    AncestorFaultOfChild(fs, PublicDir, "assets");
    AncestorFaultOfChild(fs, assets, "logo.png");
  }

  /** The example stores nothing at the client route or above it. */
  lemma ExampleSiteMisses()
    ensures PublicDir + ["missing"] !in ExampleSite()
    ensures PublicDir + ["missing", "route"] !in ExampleSite()
  {
    var dir, route := PublicDir + ["missing"], PublicDir + ["missing", "route"];
    assert |dir| == 2 && |dir[1]| == 7 && |route| == 3 && |route[1]| == 7;
    assert |"index.html"| == 10 && |"app.js"| == 6 && |"assets"| == 6;
  }

  /** A client route: nothing is stored at it or above it below the root. */
  lemma ExampleRouteMissing(fs: FileSystem)
    requires PublicDir in fs && fs[PublicDir] == Dir
    requires PublicDir + ["missing"] !in fs && PublicDir + ["missing", "route"] !in fs
    ensures Missing(fs, PublicDir + ["missing", "route"])
  {
    var dir := PublicDir + ["missing"];
    assert dir + ["route"] == PublicDir + ["missing", "route"];
    AncestorFaultOfChild(fs, PublicDir, "missing");
    AncestorFaultOfChild(fs, dir, "route");
  }

  lemma ExampleScriptType()
    ensures ContentTypeOf(PublicDir + ["app.js"]) == "application/javascript"
  {
    ContentTypeOfSuffix(PublicDir + ["app.js"], "app", ".js");
    ScriptLookup();
  }

  lemma ExampleImageType()
    ensures ContentTypeOf(PublicDir + ["assets", "logo.png"]) == "image/png"
  {
    ContentTypeOfSuffix(PublicDir + ["assets", "logo.png"], "logo", ".png");
    PngLookup();
  }

  lemma ExampleRootDocument()
    ensures Serve(ExampleSite(), "/") == Response(200, Content([65]), HtmlType)
  {
    ExampleSiteEntries();
    ServedOutcome(ExampleSite(), PublicDir, "/");
    IndexIsHtml(PublicDir);
  }

  lemma ExampleScript()
    ensures Serve(ExampleSite(), "/app.js") == Response(200, Content([66]), "application/javascript")
  {
    assert Render(["app.js"]) == "/app.js";
    ExampleSiteEntries();
    ServesStoredFile(ExampleSite(), PublicDir, ["app.js"]);
    ExampleScriptType();
  }

  lemma ExampleImage()
    ensures Serve(ExampleSite(), "/assets/logo.png") == Response(200, Content([0xFF, 0xD8]), "image/png")
  {
    assert Render(["assets", "logo.png"]) == "/assets/logo.png";
    ExampleSiteEntries();
    ServesStoredFile(ExampleSite(), PublicDir, ["assets", "logo.png"]);
    ExampleImageType();
  }

  /** A client-side route is answered with the root document. */
  lemma ExampleClientRoute()
    ensures Serve(ExampleSite(), "/missing/route") == Response(200, Content([65]), HtmlType)
  {
    var fs := ExampleSite();
    assert Render(["missing", "route"]) == "/missing/route";
    SegmentsOfRender(["missing", "route"]);
    assert RequestedPath(PublicDir, "/missing/route") == PublicDir + ["missing", "route"];
    ExampleSiteEntries();
    ExampleSiteMisses();
    ExampleRouteMissing(fs);
    MissingOutcome(fs, PublicDir, "/missing/route");
  }

  /** The example without its root document: the root directory stays,
      nothing is stored at the client route, and the root document does
      not read. */
  lemma WithoutIndexEntries()
    ensures var site := ExampleSite() - {PublicDir + [IndexFile]};
            PublicDir in site && site[PublicDir] == Dir &&
            PublicDir + ["missing"] !in site && PublicDir + ["missing", "route"] !in site &&
            !Readable(site, PublicDir + [IndexFile])
  {
    ExampleSiteEntries();
    ExampleSiteMisses();
    assert PublicDir != PublicDir + [IndexFile];
  }

  /** Without the root document the same route is answered with 404. */
  lemma ExampleClientRouteWithoutIndex()
    ensures Serve(ExampleSite() - {PublicDir + [IndexFile]}, "/missing/route").status == 404
  {
    assert Render(["missing", "route"]) == "/missing/route";
    SegmentsOfRender(["missing", "route"]);
    assert RequestedPath(PublicDir, "/missing/route") == PublicDir + ["missing", "route"];
    var site := ExampleSite() - {PublicDir + [IndexFile]};
    WithoutIndexEntries();
    ExampleRouteMissing(site);
    MissingOutcome(site, PublicDir, "/missing/route");
  }

  /** A path below the script file fails with "not a directory": 500, not
      the fallback. */
  lemma ExampleBelowScript()
    ensures Serve(ExampleSite(), "/app.js/x") == Response(500, Message(ServerErrorPrefix + NotADirectoryMessage), TextPlain)
  {
    assert ["app.js"] + ["x"] == ["app.js", "x"];
    assert Render(["app.js", "x"]) == "/app.js/x";
    ExampleSiteEntries();
    BelowFileFails(ExampleSite(), PublicDir, ["app.js"], ["x"]);
  }

  /** The script file named with a trailing separator fails the same way. */
  lemma ExampleScriptWithSeparator()
    ensures Serve(ExampleSite(), "/app.js/") == Response(500, Message(ServerErrorPrefix + NotADirectoryMessage), TextPlain)
  {
    assert Render(["app.js"]) + "/" == "/app.js/";
    ExampleSiteEntries();
    FileWithSeparatorFails(ExampleSite(), PublicDir, ["app.js"]);
  }

  /** The example with a file whose name holds a space: the root document
      still reads, and the percent-encoded name is stored nowhere. */
  lemma EncodedSiteEntries()
    ensures var fs := ExampleSite()[PublicDir + ["a b.txt"] := File([67])];
            Readable(fs, PublicDir + [IndexFile]) && fs[PublicDir + [IndexFile]] == File([65]) &&
            Missing(fs, PublicDir + ["a%20b.txt"])
  {
    var fs := ExampleSite()[PublicDir + ["a b.txt"] := File([67])];
    var c := PublicDir + ["a%20b.txt"];
    ExampleSiteEntries();
    var index := PublicDir + [IndexFile];
    assert index != PublicDir + ["a b.txt"] by { assert |index[1]| != |"a b.txt"|; }
    AncestorFaultOfChild(fs, PublicDir, IndexFile);
    AncestorFaultOfChild(fs, PublicDir, "a%20b.txt");
    assert c !in fs by {
      assert |c| == 2 && |c[1]| == 9;
      assert |"index.html"| == 10 && |"app.js"| == 6 && |"assets"| == 6 && |"a b.txt"| == 7;
    }
  }

  /** A stored file whose name the URL parser percent-encodes is not
      reached: the encoded pathname is missing, and the fallback answers. */
  lemma ExampleEncodedName()
    ensures Serve(ExampleSite()[PublicDir + ["a b.txt"] := File([67])], "/a%20b.txt") ==
            Response(200, Content([65]), HtmlType)
  {
    var fs := ExampleSite()[PublicDir + ["a b.txt"] := File([67])];
    SegmentsOfName("a%20b.txt");
    assert RequestedPath(PublicDir, "/a%20b.txt") == PublicDir + ["a%20b.txt"];
    EncodedSiteEntries();
    MissingOutcome(fs, PublicDir, "/a%20b.txt");
  }
}
