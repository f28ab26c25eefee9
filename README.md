# Static asset server with single-page-app fallback

A Dafny model of the request handler of a small Deno static file server
(`server.ts`). The server serves the files of a build directory (`./dist`).
For each request it takes the URL's pathname and decides on a response:

- `/` stands for `/index.html`, and the pathname is joined onto the build directory;
- a directory is served through its own `index.html`;
- a file that reads is answered with 200, its exact bytes and the content type of its
  lower-cased extension, taken from a fixed table (`application/octet-stream` when the
  extension is not in the table);
- a "not found" error, from `stat` or from the read, leads to reading the root
  `index.html`. That document is sent as `text/html` (single-page-app routing). When that
  read fails for any reason the answer is 404;
- any other error is answered with 500 quoting the error's message, and no fallback read is made.
  On a POSIX host, which the model assumes, among these is "not a directory": the path
  runs through a stored file (`/app.js/x`), or names a file with a trailing `/`
  (`/app.js/`), which `join` keeps.

The pathname is matched as the URL parser leaves it, still percent-encoded. A file whose name
the parser encodes (a space, a non-ASCII letter) is never reached: `/a%20b.txt` does not name
`a b.txt`, so it falls back to the root document.

The model has three modules, one per file:

- `paths.dfy` (`Paths`): a path is a sequence of segments. `Segments` splits a pathname at
  `/` and drops empty segments. `Join` is segment concatenation; whether `join` keeps a
  trailing `/` is tracked beside the path (`EndsWithSeparator`). `ExtName` follows
  `extname`'s rules on the last segment. `ToLowerAscii` lower-cases the extension.
- `mime.dfy` (`Mime`): the extension table `MimeTypes`, the lookup with its default
  (`TypeOfExtension`), and `ContentTypeOf` for a served path.
- `server.dfy` (`StaticServer`): the filesystem is a value `map<Path, Entry>`. An entry is
  a readable `File`, a `Dir`, an `Unreadable` file (`stat` works, the read fails) or an
  `Inaccessible` one (`stat` itself fails with an error other than "not found").
  `Stat` and `ReadFile` look entries up and return `NotFound` or `Other(message)`. A path
  is resolved through its prefixes: the first proper prefix stored as something other than
  a directory stops it with that entry's error (`AncestorFault`), "not a directory" for a
  file.
  `Resolve` is the `try` block and `Recover` the `catch` block. `HandleRequest` joins the
  pathname and resolves it. `Serve` runs the handler on the build directory `["dist"]`.
  Each answer also records the filesystem calls made, in order (`Handled.calls`). This is
  how the model states that a 500 makes no fallback read and that a directory's
  `index.html` is read without a second `stat`.

The lemmas `ServedOutcome`, `MissingOutcome` and `FailedOutcome` give the answer for each
of three situations of the joined path. `Trichotomy` shows that exactly one of the three
holds: the path serves a readable file, it is missing (or is a directory without
`index.html`), or it fails. The situations are stated over the stored entries, not over
the calls.

## Model

| member | source | states |
|---|---|---|
| Paths.Segments | server.ts:30 | splitting a pathname for `join` gives only non-empty segments without `/` |
| Paths.SegmentsOfRender | server.ts:30 | the pathname `/a/b` that names a path below the root splits back into exactly that path |
| Paths.SegmentsOfRenderSlash | server.ts:30 | the same pathname with a trailing `/` splits into the same path |
| Paths.RenderEndsWithName | server.ts:30 | the pathname naming a path below the root ends with its last name, not with `/` |
| Paths.SegmentsDropTrailing | server.ts:30 | a trailing `/` adds no segment to any string's split |
| Paths.SegmentsOfName | server.ts:57 | a single name such as `index.html`, with or without a leading `/`, joins as exactly one segment |
| Paths.Join | server.ts:30 | `join` keeps the base as a prefix and keeps every segment valid |
| Paths.DotSuffix | server.ts:45 | the suffix from the last `.` is empty exactly when there is no `.`; otherwise it starts with the only `.` it holds and ends the name |
| Paths.ExtOfName | server.ts:45 | `extname` of a segment is a `.`-led suffix shorter than the name with no further `.`; it is empty exactly for a name without `.`, `..`, or a name whose only `.` leads it |
| Paths.ExtOfNameOf | server.ts:45 | a stem followed by a `.`-led suffix without further `.` has that suffix as its extension |
| Paths.ExtName | server.ts:45 | the extension of a non-empty path is exactly that of its last segment; the empty path has none |
| Paths.ToLowerAscii | server.ts:45 | lower-casing keeps the length, leaves no upper-case letter and keeps a lower-case string as it is |
| Paths.ToLowerAsciiChars | server.ts:45 | each upper-case ASCII letter becomes the letter 32 code points above it, and every other character is kept |
| Paths.DotSuffixLower | server.ts:45 | lower-casing and taking the suffix from the last `.` commute |
| Paths.ExtOfNameLower | server.ts:45 | taking the extension and lower-casing commute |
| Mime.TypeOfExtension | server.ts:46 | an extension in the table gets its entry; any other extension gets `application/octet-stream` |
| Mime.ContentTypeOf | server.ts:45-46 | the type of a path is one of the table's types or the default; it is the default exactly when the table lacks the path's lower-cased extension, and always for the empty path |
| Mime.TableKeysAreExtensions | server.ts:8-24 | every key of the table is lower-case, starts with `.`, and has no further `.` |
| Mime.DefaultIffUnmapped | server.ts:46 | the default type is given exactly to the extensions the table lacks |
| Mime.JpegSpellings | server.ts:14-15 | `.jpg` and `.jpeg` both map to `image/jpeg` |
| Mime.HtmlLookup | server.ts:9 | `.html` is typed `text/html` |
| Mime.ScriptLookup | server.ts:10 | `.js` is typed `application/javascript` |
| Mime.PngLookup | server.ts:13 | `.PNG` and `.png` are both typed `image/png` |
| Mime.BinLookup | server.ts:46 | `.bin` and the empty extension get the default type |
| Mime.ContentTypeOfSuffix | server.ts:45-46 | a last segment of stem plus extension is typed by that extension, lower-cased |
| Mime.ContentTypeIgnoresCase | server.ts:45-46 | two paths whose last segments agree up to case get the same content type |
| Mime.IndexIsHtml | server.ts:38-46 | a directory's `index.html` is served as `text/html` |
| Mime.UpperCasePng | server.ts:45-46 | a file named `*.PNG` is served as `image/png` |
| Mime.UnmappedIsDefault | server.ts:46 | a file named `*.bin` is served as `application/octet-stream` |
| Mime.NoDotIsDefault | server.ts:45-46 | a file whose name has no `.` is served as `application/octet-stream` |
| StaticServer.AncestorFault | server.ts:34 | resolving a path stops at its shortest proper prefix stored as something other than a directory, with "not a directory" for a file and the entry's own error for an `Inaccessible` one; there is none exactly when every stored proper prefix is a directory |
| StaticServer.AncestorFaultOfChild | server.ts:38 | a child's path resolves exactly when its parent's path does and the parent, if stored, is a directory |
| StaticServer.AncestorFaultBelow | server.ts:34 | every path strictly below a stored non-directory that is itself reached through directories stops there, with "not a directory" for a file and the entry's own error for an `Inaccessible` one |
| StaticServer.Stat | server.ts:34 | `stat` succeeds exactly for a stored entry reached through directories whose own `stat` works, a trailing `/` only after a directory; it fails with "not found" exactly when the path resolves and nothing is stored; it reports a directory exactly for a directory; otherwise the error is the blocking entry's, the entry's own, or "not a directory" after a trailing `/` |
| StaticServer.ReadFile | server.ts:42 | a read fails with "not found" exactly when the path resolves and nothing is stored; it succeeds exactly on a readable file reached through directories and then gives its bytes; a path through a non-directory fails with that entry's error |
| StaticServer.RequestedPath | server.ts:29-30 | `/` is joined as the root's `index.html`; every other pathname is joined as its segments |
| StaticServer.JoinedWithSeparator | server.ts:29-30 | a pathname other than `/` that ends in `/` is joined with a trailing separator, and no other pathname is; that separator adds no segment (`RenderedRequest` shows it on rendered pathnames) |
| StaticServer.FinalPath | server.ts:37-39 | after a successful `stat` the path read is the candidate, or its `index.html` one segment below when it is a directory |
| StaticServer.Recover | server.ts:53-69 | "not found" adds one read of the root `index.html` to the calls; any other error adds no call and gives 500 |
| StaticServer.Resolve | server.ts:32-69 | the status is 200, 404 or 500; 200 exactly when the body is file content; the first call is the `stat` of the joined path |
| StaticServer.HandleRequest | server.ts:27-70 | the status is 200, 404 or 500, and the first call is the `stat` of the joined pathname |
| StaticServer.Serve | server.ts:5 | the server on `./dist` answers 200, 404 or 500 |
| StaticServer.Trichotomy | server.ts:32-69 | a joined path serves a file, is missing, or fails, and exactly one of these holds |
| StaticServer.JoinIndex | server.ts:38 | stepping into a directory appends the one segment `index.html` |
| StaticServer.RootRequestIsIndexDocument | server.ts:29 | `/` is answered exactly as `/index.html` is |
| StaticServer.ServedOutcome | server.ts:34-51 | a path that serves a file gets 200, exactly that file's bytes and the content type of the path read, after one `stat` and one read |
| StaticServer.MissingOutcome | server.ts:55-65 | a missing path ends with a read of the root `index.html`: 200 with its bytes as `text/html` when it reads, 404 otherwise |
| StaticServer.FailedOutcome | server.ts:68 | a failing path gets 500 with the error's message after the fixed prefix; the calls are the `stat` alone when it failed, else the `stat` and the one read |
| StaticServer.RenderedRequest | server.ts:29-30 | the pathname listing a path's names, with or without a trailing `/`, is joined back onto that path, and only the second keeps the separator |
| StaticServer.ServesStoredFile | server.ts:29-51 | a readable file reached through directories is served byte for byte, with the type of its extension, for the pathname that lists its names as they are; the pathname is not percent-decoded, so this is the request for it only when the URL parser leaves its names unencoded |
| StaticServer.DirectoryServesIndex | server.ts:37-51 | a directory holding a readable `index.html` is answered with that document as `text/html` |
| StaticServer.StatBelowFile | server.ts:34 | `stat` of a path below a readable file fails with "not a directory" |
| StaticServer.BelowFileFails | server.ts:30-68 | a pathname running through a readable file gets 500 "not a directory" after the one `stat`, with no fallback |
| StaticServer.FileWithSeparatorFails | server.ts:30-68 | a readable file named with a trailing `/` gets 500 "not a directory" after the one `stat`, with no fallback |
| StaticServer.ExampleScriptType | server.ts:10 | `dist/app.js` is typed `application/javascript` |
| StaticServer.ExampleImageType | server.ts:13 | `dist/assets/logo.png` is typed `image/png` |
| StaticServer.ExampleRootDocument | server.ts:29-51 | on the example build `/` gives 200, `A`, `text/html` |
| StaticServer.ExampleScript | server.ts:42-51 | on the example build `/app.js` gives 200, `B`, `application/javascript` |
| StaticServer.ExampleImage | server.ts:42-51 | on the example build `/assets/logo.png` gives 200, bytes FF D8, `image/png` |
| StaticServer.ExampleClientRoute | server.ts:55-62 | on the example build `/missing/route` gives 200 with the root document as `text/html` |
| StaticServer.ExampleClientRouteWithoutIndex | server.ts:63-64 | without the root `index.html` the same route gives 404 |
| StaticServer.ExampleBelowScript | server.ts:34-68 | on the example build `/app.js/x` gives 500 "not a directory" |
| StaticServer.ExampleScriptWithSeparator | server.ts:30-68 | on the example build `/app.js/` gives 500 "not a directory" |
| StaticServer.ExampleEncodedName | server.ts:28-62 | with a stored `a b.txt`, the pathname `/a%20b.txt` is missing and gets the root document |

## Left out

- Server startup, the port and logging (`serve`, `PORT`, `console.log`, server.ts:72-74): process plumbing with no decision in it.
- The host is POSIX with a case-sensitive filesystem. Path resolution, its errors and the exact-name lookup are that host's. The model does not cover Windows, where `join` and `extname` take their win32 forms and a path through a file is reported as "path not found", so the handler would fall back with 200 instead of answering 500; a `FileSystem` value cannot express that. Nor does it cover a case-insensitive volume such as macOS's default, where `/APP.JS` reaches `app.js`.
- `Deno.stat` and `Deno.readFile` are modelled as lookups in a filesystem value. A path is resolved through its stored prefixes. The model does not require that every stored path has a stored parent directory; a stored path under an unstored parent is still found. A path below an `Inaccessible` entry fails with that entry's error. Symbolic links, devices and other special files are not modelled.
- `new URL(req.url)` (server.ts:28): the pathname is the input. It is used percent-encoded, as the source does. WHATWG URL parsing already removes `.` and `..` segments, so `Segments` keeps such segments literal and does not model `join`'s `..` resolution.
- Paths.Segments: its own contract says only that the segments are valid. What they are is stated for rendered pathnames by `SegmentsOfRender` and `SegmentsOfRenderSlash`. The trailing `/` that `join` keeps is not part of the path; `HandleRequest` passes it to `Stat` beside the path (`JoinedWithSeparator`).
- Paths.ToLowerAscii: only ASCII letters are lowered, where `toLowerCase` lowers all of Unicode. Outside ASCII, only the Kelvin sign and U+0130 lower to ASCII letters, and neither one can complete a key of the table. So the content type is the same.
- Error messages: the message of an `Unreadable` or `Inaccessible` entry stands for whatever the runtime reports. For a read of a directory and for a path through a file, the model gives only the beginning of the runtime's message (`Is a directory (os error 21)`, `Not a directory (os error 20)` on Linux); the runtime goes on to name the call and the path.
- The `Content-Type` of the 404 and 500 bodies is the Fetch default for a string body (`text/plain;charset=UTF-8`). The source does not set it. No other header is modelled.
- Asynchronous execution and concurrent requests: each request is independent and shares no mutable state.
