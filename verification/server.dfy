/**
  The static-file server of `src/main.rs`: routing a request URL to a file
  beneath the base directory, the allow-list that decides whether that file
  may be served, the response chosen from what the filesystem holds, and the
  content type derived from the file's extension.
 */
module Server {
  import opened Wrappers
  import opened Text
  import opened Paths

  type byte = b: int | 0 <= b < 256

  /** The files that may be served besides the root document, compared byte for byte. */
  const ServedFiles: seq<string> := [
    "index.html",
    "new-api/pkg/new_api_bg.wasm",
    "new-api/pkg/new_api_bg.wasm.d.ts",
    "new-api/pkg/new_api.d.ts",
    "new-api/pkg/new_api.js"
  ]

  /** The document served for the URL `/`. */
  const IndexDocument: string := "index.html"

  /** The base directory the listener is started with. */
  const BaseDirectory: string := "web/"

  /**
    What the filesystem holds at a path. A path absent from the map does not
    exist; `ReadFails` is a regular file whose read returns an error.
   */
  datatype Entry = NotAFile | File(contents: seq<byte>) | ReadFails

  type FileSystem = map<string, Entry>

  /** `Path::exists`. */
  predicate Exists(fs: FileSystem, path: string)
  {
    path in fs
  }

  /** `Path::is_file`. */
  predicate IsFile(fs: FileSystem, path: string)
  {
    path in fs && !fs[path].NotAFile?
  }

  datatype ReadError = ReadError

  /** `fs::read`. */
  function Read(fs: FileSystem, path: string): Result<seq<byte>, ReadError>
  {
    if path in fs && fs[path].File? then Ok(fs[path].contents) else Err(ReadError)
  }

  /** The file a request resolves to, and whether the allow-list permits it. */
  datatype Target = Target(path: string, allowed: bool)

  /** `Response::from_string` gives a text body, `Response::from_data` a byte body. */
  datatype Body = TextBody(text: string) | DataBody(bytes: seq<byte>)

  /** A response; `contentType` is `None` where the source adds no header of its own. */
  datatype Response = Response(status: int, body: Body, contentType: Option<string>)

  const NotFound: Response := Response(404, TextBody("404 Not Found"), None)

  const InternalServerError: Response := Response(500, TextBody("500 Internal Server Error"), None)

  /** The part of the URL used for routing: everything before the first `?`. */
  function RoutePath(url: string): (route: string)
    ensures route <= url && '?' !in route
    ensures |route| < |url| ==> url[|route|] == '?'
  {
    var pieces := Split(url, '?');
    if '?' in url then
      var i := IndexOf(url, '?');
      assert url == url[..i] + ['?'] + url[i+1..];
      SplitFirst(url[..i], url[i+1..], '?');
      pieces[0]
    else
      pieces[0]
  }

  /** The path beneath the base directory that a non-root route names: every leading `/` removed. */
  function RequestedPath(route: string): string
  {
    TrimStart(route, '/')
  }

  /**
    `handle_request`'s routing: `/` is the index document and always allowed;
    any other route is looked up beneath `base` and allowed only when the
    stripped path is an allow-list entry.
   */
  function Resolve(base: string, url: string): (t: Target)
  {
    var route := RoutePath(url);
    if route == "/" then Target(Join(base, IndexDocument), true)
    else
      var path := RequestedPath(route);
      Target(Join(base, path), path in ServedFiles)
  }

  /** `get_mime_type`: a fixed, case-sensitive table keyed on the extension. */
  function MimeForExtension(ext: Option<string>): string
  {
    match ext
    case Some("html") => "text/html"
    case Some("css") => "text/css"
    case Some("js") => "application/javascript"
    case Some("json") => "application/json"
    case Some("wasm") => "application/wasm"
    case Some("png") => "image/png"
    case Some("jpg") => "image/jpeg"
    case Some("jpeg") => "image/jpeg"
    case Some("gif") => "image/gif"
    case Some("svg") => "image/svg+xml"
    case _ => "application/octet-stream"
  }

  function MimeType(path: string): string
  {
    MimeForExtension(Extension(path))
  }

  /** The response `handle_request` sends for a resolved target. */
  function Respond(fs: FileSystem, t: Target): (r: Response)
    ensures r.status == 200 <==> t.allowed && t.path in fs && fs[t.path].File?
    ensures r.status == 200 ==>
              r.body == DataBody(fs[t.path].contents) && r.contentType == Some(MimeType(t.path))
    ensures r.status == 500 <==> t.allowed && t.path in fs && fs[t.path].ReadFails?
    ensures r.status != 200 && r.status != 500 ==> r == NotFound
  {
    if t.allowed && Exists(fs, t.path) && IsFile(fs, t.path) then
      match Read(fs, t.path)
      case Ok(contents) => Response(200, DataBody(contents), Some(MimeType(t.path)))
      case Err(_) => InternalServerError
    else
      NotFound
  }

  /** `handle_request` with the response returned instead of sent. */
  function HandleRequest(fs: FileSystem, base: string, url: string): (r: Response)
    ensures r.status == 200 || r == NotFound || r == InternalServerError
  {
    Respond(fs, Resolve(base, url))
  }

  // ---------------------------------------------------------------------------
  // Routing properties

  /** The text after the first `?` never influences routing. */
  lemma QueryIgnored(base: string, path: string, query: string)
    requires '?' !in path
    ensures RoutePath(path + "?" + query) == path
    ensures Resolve(base, path + "?" + query) == Resolve(base, path)
  {
    var url := path + "?" + query;
    assert url[|path|] == '?';
    assert url[..|path|] == path;
  }

  /** Serving, too, is blind to the query: a request with a query gets the response of the bare path. */
  lemma HandleQueryIgnored(fs: FileSystem, base: string, path: string, query: string)
    requires '?' !in path
    ensures HandleRequest(fs, base, path + "?" + query) == HandleRequest(fs, base, path)
  {
    QueryIgnored(base, path, query);
  }

  /** The root route, with or without a query, is the index document beneath `base` and is always allowed. */
  lemma RootIsIndex(base: string, url: string)
    requires url == "/" || "/?" <= url
    ensures Resolve(base, url) == Target(Join(base, "index.html"), true)
  {
    if url != "/" {
      QueryIgnored(base, "/", url[2..]);
      assert url == "/" + "?" + url[2..];
    }
  }

  /** The first `k` characters of `route` are all `/`. */
  predicate SlashRun(route: string, k: nat)
    requires k <= |route|
  {
    forall i :: 0 <= i < k ==> route[i] == '/'
  }

  /** Every allow-list entry is a non-empty relative path. */
  lemma ServedFilesRelative()
    ensures forall e :: e in ServedFiles ==> |e| > 0 && e[0] != '/'
  {
  }

  /**
    A request is allowed exactly when its route is `/`, or is some run of
    `/` characters followed by an allow-list entry: all leading slashes are
    removed, not only one, so `//index.html` is allowed too.
   */
  lemma AllowedIff(base: string, url: string)
    ensures Resolve(base, url).allowed <==>
              || RoutePath(url) == "/"
              || exists k :: 0 <= k <= |RoutePath(url)| && SlashRun(RoutePath(url), k) && RoutePath(url)[k..] in ServedFiles
  {
    var route := RoutePath(url);
    var path := RequestedPath(route);
    var m := |route| - |path|;
    if route != "/" {
      if path in ServedFiles {
        assert SlashRun(route, m) && route[m..] in ServedFiles;
      }
      if exists k :: 0 <= k <= |route| && SlashRun(route, k) && route[k..] in ServedFiles {
        var k :| 0 <= k <= |route| && SlashRun(route, k) && route[k..] in ServedFiles;
        ServedFilesRelative();
        TrimStartAt(route, '/', k);
      }
    }
  }

  /** `s` contains the parent-directory sequence `..`. */
  predicate HasDotDot(s: string)
  {
    exists i :: 0 <= i < |s| - 1 && s[i] == '.' && s[i + 1] == '.'
  }

  /** No allow-list entry contains `..`. */
  lemma ServedFilesHaveNoDotDot()
    ensures forall e :: e in ServedFiles ==> !HasDotDot(e)
  {
  }

  /** A path containing `..` is not an allow-list entry. */
  lemma DotDotNotServed(path: string)
    requires HasDotDot(path)
    ensures path !in ServedFiles
  {
    ServedFilesHaveNoDotDot();
  }

  /** Removing leading slashes cannot remove a `..`. */
  lemma RequestedPathKeepsDotDot(route: string)
    requires HasDotDot(route)
    ensures HasDotDot(RequestedPath(route))
  {
    var path := RequestedPath(route);
    var m := |route| - |path|;
    var i :| 0 <= i < |route| - 1 && route[i] == '.' && route[i + 1] == '.';
    assert route[i] != '/';
    assert path[i - m] == '.' && path[i - m + 1] == '.';
  }

  /** Path traversal is refused: a route containing `..` is never allowed, whatever the base. */
  lemma DotDotNeverAllowed(base: string, url: string)
    requires HasDotDot(RoutePath(url))
    ensures !Resolve(base, url).allowed
  {
    var route := RoutePath(url);
    assert route != "/" by { assert |route| >= 2; }
    RequestedPathKeepsDotDot(route);
    DotDotNotServed(RequestedPath(route));
  }

  /**
    Every resolved path lies textually beneath the base directory: because all
    leading slashes are stripped, `Path::join` never sees an absolute path
    that would replace the base.
   */
  lemma ResolvedBeneathBase(base: string, url: string)
    ensures base <= Resolve(base, url).path
  {
  }

  // ---------------------------------------------------------------------------
  // Response properties

  /** A request the allow-list refuses gets 404 whatever is on disk. */
  lemma RefusedIsNotFound(fs1: FileSystem, fs2: FileSystem, base: string, url: string)
    requires !Resolve(base, url).allowed
    ensures HandleRequest(fs1, base, url) == HandleRequest(fs2, base, url) == NotFound
  {
  }

  /**
    The full outcome of a request in terms of what is stored at the resolved
    path: 404 unless allowed and a regular file, then 200 with the bytes and
    the extension's content type, or 500 when the read fails.
   */
  lemma HandleOutcomes(fs: FileSystem, base: string, url: string)
    ensures var t := Resolve(base, url);
            var r := HandleRequest(fs, base, url);
            && (!t.allowed || t.path !in fs || fs[t.path].NotAFile? ==> r == NotFound)
            && (t.allowed && t.path in fs && fs[t.path].File? ==>
                  r == Response(200, DataBody(fs[t.path].contents), Some(MimeType(t.path))))
            && (t.allowed && t.path in fs && fs[t.path].ReadFails? ==> r == InternalServerError)
  {
  }

  /** An allowed target is the index document or an allow-list entry `e`, joined beneath `base`. */
  lemma AllowedTargetIsServedFile(base: string, url: string) returns (e: string)
    requires Resolve(base, url).allowed
    ensures e == IndexDocument || e in ServedFiles
    ensures Resolve(base, url).path == Join(base, e)
  {
    var route := RoutePath(url);
    e := if route == "/" then IndexDocument else RequestedPath(route);
  }

  /**
    A 200 response only ever carries the bytes stored at `base` joined with the
    index document or an allow-list entry `e`.
   */
  lemma SuccessServesAllowedFile(fs: FileSystem, base: string, url: string) returns (e: string)
    requires HandleRequest(fs, base, url).status == 200
    ensures e == IndexDocument || e in ServedFiles
    ensures Join(base, e) in fs && fs[Join(base, e)].File?
    ensures HandleRequest(fs, base, url).body == DataBody(fs[Join(base, e)].contents)
  {
    var t := Resolve(base, url);
    assert Respond(fs, t) == HandleRequest(fs, base, url);
    e := AllowedTargetIsServedFile(base, url);
  }

  // ---------------------------------------------------------------------------
  // Content types

  /** The dot-free text after a final `.` is determined by the string. */
  lemma DotFreeSuffixUnique(name: string, a: string, b: string)
    requires |a| < |name| && name[|name| - |a| - 1] == '.' && name[|name| - |a|..] == a && '.' !in a
    requires |b| < |name| && name[|name| - |b| - 1] == '.' && name[|name| - |b|..] == b && '.' !in b
    ensures a == b
  {
    assert forall j :: |name| - |a| <= j < |name| ==> name[j] == a[j - (|name| - |a|)];
    assert forall j :: |name| - |b| <= j < |name| ==> name[j] == b[j - (|name| - |b|)];
    assert |a| <= |b|;
    assert |b| <= |a|;
  }

  /** The extension is the text after the last dot of the file name, whatever dots the stem holds. */
  lemma NameExtensionAfterLastDot(stem: string, ext: string)
    requires stem != "" && '.' !in ext && '/' !in stem && '/' !in ext
    requires stem + "." + ext != ".."
    ensures NameExtension(stem + "." + ext) == Some(ext)
  {
    var name := stem + "." + ext;
    assert 0 < |stem| < |name| && name[|stem|] == '.';
    var r := NameExtension(name);
    assert name[|name| - |ext|..] == ext;
    DotFreeSuffixUnique(name, r.value, ext);
  }

  /**
    `get_mime_type` reads only the extension of the final path component: for
    any directory, the content type of `dir/stem.ext` is the table entry for
    `ext`, compared case-sensitively.
   */
  lemma MimeTypeByLastExtension(dir: string, stem: string, ext: string)
    requires stem != "" && '.' !in ext && '/' !in stem && '/' !in ext
    requires stem + "." + ext != ".."
    ensures Extension(dir + "/" + stem + "." + ext) == Some(ext)
    ensures MimeType(dir + "/" + stem + "." + ext) == MimeForExtension(Some(ext))
  {
    var name := stem + "." + ext;
    assert dir + "/" + stem + "." + ext == dir + "/" + name;
    assert '/' !in name by {
      assert forall i :: 0 <= i < |name| ==> name[i] in stem || name[i] == '.' || name[i] in ext;
    }
    NameExtensionAfterLastDot(stem, ext);
    ExtensionOfChild(dir, name);
  }

  /** The content type of `base/dir/stem.ext`, as the served files are named. */
  lemma MimeTypeOfServed(dir: string, stem: string, ext: string)
    requires |dir| > 0 && dir[0] != '/'
    requires stem != "" && '.' !in ext && '/' !in stem && '/' !in ext
    requires stem + "." + ext != ".."
    ensures Extension(Join(BaseDirectory, dir + "/" + stem + "." + ext)) == Some(ext)
    ensures MimeType(Join(BaseDirectory, dir + "/" + stem + "." + ext)) == MimeForExtension(Some(ext))
  {
    var rel := dir + "/" + stem + "." + ext;
    assert rel[0] == dir[0];
    assert Join(BaseDirectory, rel) == BaseDirectory + rel;
    assert BaseDirectory + rel == (BaseDirectory + dir) + "/" + stem + "." + ext;
    MimeTypeByLastExtension(BaseDirectory + dir, stem, ext);
  }

  /** The extensions the table knows. */
  const KnownExtensions: set<string> := {"html", "css", "js", "json", "wasm", "png", "jpg", "jpeg", "gif", "svg"}

  /** Any extension outside the table, or none at all, gives `application/octet-stream`. */
  lemma UnknownExtension(path: string)
    requires Extension(path).None? || Extension(path).value !in KnownExtensions
    ensures MimeType(path) == "application/octet-stream"
  {
  }

  /** `KnownExtensions` is exactly the set of the table's keys: those, and only those, map to something other than the fallback. */
  lemma KnownExtensionsAreTableKeys()
    ensures forall e :: e in KnownExtensions <==> MimeForExtension(Some(e)) != "application/octet-stream"
  {
  }

  /** A path whose extension is in the table gets that entry. */
  lemma KnownExtension(path: string, ext: string)
    requires Extension(path) == Some(ext)
    ensures MimeType(path) == MimeForExtension(Some(ext))
  {
  }

  lemma IndexContentType()
    ensures MimeType(Join(BaseDirectory, IndexDocument)) == "text/html"
  {
    var path := Join(BaseDirectory, IndexDocument);
    assert path == "web" + "/" + "index" + "." + "html";
    MimeTypeByLastExtension("web", "index", "html");
    KnownExtension(path, "html");
  }

  /** The compiled module and its loader sit in one directory of the allow-list. */
  lemma ServedModuleFiles()
    ensures ServedFiles[1] == "new-api/pkg" + "/new_api_bg.wasm"
    ensures ServedFiles[4] == "new-api/pkg" + "/new_api.js"
  {
  }

  lemma WasmEntry()
    ensures MimeForExtension(Some("wasm")) == "application/wasm"
  {
  }

  /** The compiled module `new_api_bg.wasm` is served as `application/wasm`, in whichever relative directory beneath `web/`. */
  lemma WasmContentType(dir: string)
    requires |dir| > 0 && dir[0] != '/'
    ensures MimeType(Join(BaseDirectory, dir + "/new_api_bg.wasm")) == "application/wasm"
  {
    assert MimeType(Join(BaseDirectory, dir + "/new_api_bg.wasm")) == MimeForExtension(Some("wasm")) by {
      assert dir + "/new_api_bg.wasm" == dir + "/" + "new_api_bg" + "." + "wasm";
      MimeTypeOfServed(dir, "new_api_bg", "wasm");
    }
    WasmEntry();
  }

  /**
    Only the last extension counts, so a TypeScript declaration file
    (`stem.d.ts`) is served as `application/octet-stream`.
   */
  lemma DeclarationContentType(dir: string, stem: string)
    requires |dir| > 0 && dir[0] != '/'
    requires stem != "" && '/' !in stem
    ensures MimeType(Join(BaseDirectory, dir + "/" + stem + ".d.ts")) == "application/octet-stream"
  {
    assert '/' !in stem + ".d" by {
      assert forall i :: 0 <= i < |stem + ".d"| ==> (stem + ".d")[i] in stem || (stem + ".d")[i] in ".d";
    }
    assert dir + "/" + stem + ".d.ts" == dir + "/" + (stem + ".d") + "." + "ts";
    MimeTypeOfServed(dir, stem + ".d", "ts");
    UnknownExtension(Join(BaseDirectory, dir + "/" + stem + ".d.ts"));
  }

  /** The declaration files on the allow-list are `new-api/pkg/<stem>.d.ts`. */
  lemma DeclarationEntries()
    ensures ServedFiles[2] == "new-api/pkg" + "/" + "new_api_bg.wasm" + ".d.ts"
    ensures ServedFiles[3] == "new-api/pkg" + "/" + "new_api" + ".d.ts"
  {
  }

  /** The two declaration files on the allow-list are `.d.ts` files, so both are served as `application/octet-stream`. */
  lemma ServedDeclarationFiles()
    ensures MimeType(Join(BaseDirectory, ServedFiles[2])) == "application/octet-stream"
    ensures MimeType(Join(BaseDirectory, ServedFiles[3])) == "application/octet-stream"
  {
    DeclarationEntries();
    DeclarationContentType("new-api/pkg", "new_api_bg.wasm");
    DeclarationContentType("new-api/pkg", "new_api");
  }

  /** The loader `new_api.js` is served as `application/javascript`, in whichever relative directory beneath `web/`. */
  lemma ScriptContentType(dir: string)
    requires |dir| > 0 && dir[0] != '/'
    ensures MimeType(Join(BaseDirectory, dir + "/new_api.js")) == "application/javascript"
  {
    assert MimeType(Join(BaseDirectory, dir + "/new_api.js")) == MimeForExtension(Some("js")) by {
      assert dir + "/new_api.js" == dir + "/" + "new_api" + "." + "js";
      MimeTypeOfServed(dir, "new_api", "js");
    }
  }

  /** The table is case-sensitive: `stem.HTML` is not recognised as HTML. */
  lemma MimeTypeCaseSensitive(dir: string, stem: string)
    requires stem != "" && '/' !in stem
    ensures MimeType(dir + "/" + stem + ".HTML") == "application/octet-stream"
  {
    var path := dir + "/" + stem + ".HTML";
    var ext := "HTML";
    assert '.' !in ext && '/' !in ext && ext !in KnownExtensions;
    assert |stem + "." + ext| > 2;
    assert path == dir + "/" + stem + "." + ext;
    MimeTypeByLastExtension(dir, stem, ext);
    UnknownExtension(path);
  }

  // ---------------------------------------------------------------------------
  // Request scenarios against the listener's base directory

  /** A URL without a query is routed as it stands. */
  lemma RouteWithoutQuery(url: string)
    requires '?' !in url
    ensures RoutePath(url) == url
  {
  }

  /** `GET /path` for a relative `path` without a query names `base/path`, allowed iff `path` is listed. */
  lemma ResolveRelative(base: string, path: string)
    requires '?' !in path && |path| > 0 && path[0] != '/'
    ensures Resolve(base, "/" + path) == Target(Join(base, path), path in ServedFiles)
  {
    var url := "/" + path;
    assert '?' !in url by { assert forall i :: 0 < i < |url| ==> url[i] == path[i - 1]; }
    RouteWithoutQuery(url);
    TrimStartAt(url, '/', 1);
    assert url[1..] == path;
  }

  /** `GET /` with the index document on disk returns it as `text/html`. */
  lemma ServeRoot(fs: FileSystem, contents: seq<byte>)
    requires Join(BaseDirectory, IndexDocument) in fs && fs[Join(BaseDirectory, IndexDocument)] == File(contents)
    ensures HandleRequest(fs, BaseDirectory, "/") == Response(200, DataBody(contents), Some("text/html"))
  {
    RootIsIndex(BaseDirectory, "/");
    IndexContentType();
  }

  /** A file outside the allow-list, such as `/secret.txt`, is never served, even when it exists. */
  lemma RefuseUnlisted(fs: FileSystem, base: string, path: string)
    requires '?' !in path && |path| > 0 && path[0] != '/'
    requires path !in ServedFiles
    ensures HandleRequest(fs, base, "/" + path) == NotFound
  {
    ResolveRelative(base, path);
  }

  /** `GET /new-api/pkg/new_api_bg.wasm` with the module on disk returns it as `application/wasm`. */
  lemma ServeWasm(fs: FileSystem, contents: seq<byte>)
    requires Join(BaseDirectory, ServedFiles[1]) in fs && fs[Join(BaseDirectory, ServedFiles[1])] == File(contents)
    ensures HandleRequest(fs, BaseDirectory, "/" + ServedFiles[1]) == Response(200, DataBody(contents), Some("application/wasm"))
  {
    ResolveRelative(BaseDirectory, ServedFiles[1]);
    ServedModuleFiles();
    WasmContentType("new-api/pkg");
  }

  /** `GET /new-api/pkg/new_api.js` with the script missing from disk is 404. */
  lemma MissingScript(fs: FileSystem)
    requires Join(BaseDirectory, ServedFiles[4]) !in fs
    ensures HandleRequest(fs, BaseDirectory, "/" + ServedFiles[4]) == NotFound
  {
    ResolveRelative(BaseDirectory, ServedFiles[4]);
  }

  /** `GET /index.html` whose read fails is 500. */
  lemma UnreadableIndex(fs: FileSystem)
    requires Join(BaseDirectory, IndexDocument) in fs && fs[Join(BaseDirectory, IndexDocument)] == ReadFails
    ensures HandleRequest(fs, BaseDirectory, "/" + IndexDocument) == InternalServerError
  {
    ResolveRelative(BaseDirectory, IndexDocument);
  }

  /**
    Any run of leading slashes routes like a single one: `//index.html` is
    `index.html`, because every leading `/` is stripped.
   */
  lemma LeadingSlashesCollapse(base: string, slashes: string, path: string)
    requires |slashes| > 0 && forall i :: 0 <= i < |slashes| ==> slashes[i] == '/'
    requires '?' !in path && |path| > 0 && path[0] != '/'
    ensures Resolve(base, slashes + path) == Resolve(base, "/" + path)
  {
    var url := slashes + path;
    assert RoutePath(url) == url by {
      assert '?' !in url by {
        assert forall i :: 0 <= i < |url| ==> url[i] == '/' || url[i] in path;
      }
      RouteWithoutQuery(url);
    }
    assert RequestedPath(url) == path by {
      TrimStartAt(url, '/', |slashes|);
      assert url[|slashes|..] == path;
    }
    assert |url| >= 2;
    ResolveRelative(base, path);
  }
}
