# Static-file server, log-level query and application lifecycle — a Dafny model

This project models the sequential logic of a small repository that serves a
browser graphics demo:

- **The static-file server** (`src/main.rs`). A request URL is cut at its first
  `?`; `/` names `index.html`; any other route has *all* of its leading `/`
  characters removed and is allowed only when the remainder is byte-for-byte
  one of the five entries of `SERVED_FILES`. The resolved path is joined beneath
  the base directory `web/`. The response is 404 (`"404 Not Found"`) unless the
  target is allowed, exists and is a regular file; then it is 200 with the
  file's bytes and a `Content-Type` from `get_mime_type`, or 500
  (`"500 Internal Server Error"`) when the read fails. `get_mime_type` is a
  fixed, case-sensitive table keyed on `Path::extension`, the text after the
  last `.` of the final component.
- **Log levels from the query string** (`web/common/src/lib.rs`).
  `parse_url_query_string` splits on `&`, then on `=`, keeps the first two
  pieces, drops segments without `=`, and keeps keys with a given prefix.
  `init_logger` starts from `Info` overall and `Error` for `wgpu_core` and
  `wgpu_hal`, then adds a base-level directive for each `loglvl_base` and a
  module directive for each other `loglvl_<m>`; values that are not levels are
  collected and reported afterwards.
- **The graphics surface size** (`Graphics::resized`, `physical_size`): both
  dimensions are clamped to at least one.
- **The `Application` state machine** (`web/new-api/src/lib.rs`): `Building`
  with an optional event-loop proxy, or `Running` with a window and a graphics
  context; `resumed` spawns the one graphics build, `user_event` starts
  running, and `render`/`resized` act only while running.

Files:

| file | module | contents |
|---|---|---|
| `wrappers.dfy` | `Wrappers` | `Option`, `Result` |
| `text.dfy` | `Text` | `str::split` with a char pattern and its inverse, `trim_start_matches` |
| `paths.dfy` | `Paths` | `Path::join`, `Path::file_name`, `Path::extension` on `/`-separated strings |
| `server.dfy` | `Server` | `SERVED_FILES`, routing, responses, content types, scenarios |
| `log_query.dfy` | `LogQuery` | `parse_url_query_string`, the directive loop of `init_logger` |
| `graphics.dfy` | `GraphicsContext` | surface size, resize and render counters |
| `application.dfy` | `Application` | the lifecycle state machine over event sequences |

Modelling choices:

- The route is the first piece of `url.split('?')`; since a split always yields
  at least one piece (`Text.Split`), the `unwrap_or("/")` fallback never applies.
- The filesystem is a `map` from path string to `NotAFile | File(bytes) | ReadFails`;
  a path absent from the map does not exist. `exists`, `is_file` and `fs::read`
  are read off that map, so a read failure after the checks is the `ReadFails` entry.
- A response is a returned value: status, a text body (`Response::from_string`)
  or byte body (`Response::from_data`), and the `Content-Type` the handler sets
  (`None` where it sets none and the HTTP library's default applies).
- `trim_start_matches('/')` strips every leading slash, so `//index.html` is
  served as `index.html`. Stripping every slash is also what keeps every
  resolved path textually prefixed by the base directory
  (`Server.ResolvedBeneathBase`): `Path::join` with an absolute path would
  replace the base. A route containing `..` still names a file outside the
  base directory; the allow-list refuses every such route
  (`Server.DotDotNeverAllowed`), and the handler checks the allow-list before
  it touches the filesystem.
- `LevelFilter::from_str` is a function parameter `parse: string -> Result<LevelFilter, E>`;
  its error type is the type parameter `E`.
- Windows, proxies and graphics contexts are tokens. The effects of the handlers
  that leave the state are recorded as ordinary fields: the builds `resumed`
  spawned (window and proxy), whether exit was requested, and per context the
  number of surface configurations and rendered frames.

## Model

| member | source | states |
|---|---|---|
| `Text.Split` | web/common/src/lib.rs:177-181 | the pieces contain no separator, there is always at least one, and glued back with the separator they give the input |
| `Text.SplitJoin` | web/common/src/lib.rs:177-179 | splitting a separator-free join returns the pieces: the split is the unique such decomposition |
| `Text.SplitAppend` | web/common/src/lib.rs:177 | splitting `a + sep + b` gives the pieces of `a` followed by those of `b` |
| `Text.TrimStart` | src/main.rs:32 | the result is a suffix of the input, everything removed is the trimmed character, and the result does not start with it |
| `Paths.Join` | src/main.rs:29-33 | an absolute right side replaces the base; otherwise the result is base and right side with exactly one `/` between them, inserted only when the base is non-empty and lacks a trailing `/` |
| `Paths.FileName` | src/main.rs:60 | the final component is non-empty, is neither `.` nor `..`, and contains no `/` |
| `Paths.LastNormalIndex` | src/main.rs:60 | the index of the last piece that is neither empty nor `.`, every later piece being empty or `.`; -1 when there is none |
| `Paths.FileNameIsLastComponent` | src/main.rs:60 | the file name is the last normal `/`-separated piece, trailing `/` and `.` skipped; none for the empty path, the root, or a path ending in `..` |
| `Paths.NameExtension` | src/main.rs:60 | an extension exists iff the name is not `..` and has a `.` after its first character; it is dot-free and is exactly what follows the name's last `.` |
| `Paths.FileNameOfChild` | src/main.rs:60 | the final component of `dir/name` is `name` whatever `dir` holds |
| `Server.RoutePath` | src/main.rs:25 | the route is the prefix of the URL before its first `?` |
| `Server.QueryIgnored` | src/main.rs:25 | appending `?query` to a path does not change the route or the resolved target |
| `Server.HandleQueryIgnored` | src/main.rs:24-25 | `/index.html?x=1` and `/index.html` get the same response on every filesystem |
| `Server.RootIsIndex` | src/main.rs:27-29 | `/`, with or without a query, resolves to `base` joined with `index.html` and is allowed |
| `Server.AllowedIff` | src/main.rs:27-33 | a request is allowed iff its route is `/` or a run of `/` followed by an entry of `SERVED_FILES` |
| `Server.ServedFilesRelative` | src/main.rs:16-22 | every allow-list entry is non-empty and does not start with `/` |
| `Server.ServedFilesHaveNoDotDot` | src/main.rs:16-22 | no allow-list entry contains `..` |
| `Server.DotDotNeverAllowed` | src/main.rs:31-33 | a route containing `..` is never allowed |
| `Server.RequestedPathKeepsDotDot` | src/main.rs:32 | stripping leading slashes keeps any `..` in the route |
| `Server.ResolvedBeneathBase` | src/main.rs:27-33 | every resolved path extends the base directory |
| `Server.LeadingSlashesCollapse` | src/main.rs:32-33 | any non-empty run of leading slashes resolves like a single one |
| `Server.ResolveRelative` | src/main.rs:30-33 | `/path` for a relative query-free path resolves to `base/path`, allowed iff `path` is listed |
| `Server.Respond` | src/main.rs:36-56 | 200 iff allowed and a regular file that reads, with its bytes and content type; 500 iff allowed and a file whose read fails; 404 otherwise |
| `Server.HandleRequest` | src/main.rs:24-57 | every response is a 200, the 404 response or the 500 response |
| `Server.HandleOutcomes` | src/main.rs:36-56 | per filesystem entry: not allowed, missing or not a file gives 404; a readable file gives 200 with bytes and content type; a failing read gives 500 |
| `Server.RefusedIsNotFound` | src/main.rs:36-55 | a refused request gets the same 404 on any two filesystems |
| `Server.AllowedTargetIsServedFile` | src/main.rs:27-33 | an allowed target is `base` joined with `index.html` or an allow-list entry |
| `Server.SuccessServesAllowedFile` | src/main.rs:27-44 | a 200 body is the bytes of the index document or an allow-listed file beneath `base` |
| `Server.NameExtensionAfterLastDot` | src/main.rs:60 | the extension of `stem.ext` is `ext` for any non-empty stem, dots in the stem included |
| `Server.MimeTypeByLastExtension` | src/main.rs:59-71 | the content type of `dir/stem.ext` is the table's entry for `ext`, whatever `dir` and `stem` are |
| `Server.KnownExtensionsAreTableKeys` | src/main.rs:59-69 | exactly the ten table keys (`html`, `css`, `js`, `json`, `wasm`, `png`, `jpg`, `jpeg`, `gif`, `svg`) map to something other than `application/octet-stream` |
| `Server.UnknownExtension` | src/main.rs:70 | an absent extension or one outside the table gives `application/octet-stream` |
| `Server.MimeTypeOfServed` | src/main.rs:29-39 | the served path `web/dir/stem.ext` gets the content type of `ext` |
| `Server.IndexContentType` | src/main.rs:61 | `web/index.html` is `text/html` |
| `Server.ServedModuleFiles` | src/main.rs:17-20 | the compiled module and its loader are `new-api/pkg/new_api_bg.wasm` and `new-api/pkg/new_api.js` on the allow-list |
| `Server.WasmContentType` | src/main.rs:65 | `new_api_bg.wasm` in any relative directory beneath `web/` is `application/wasm` |
| `Server.ScriptContentType` | src/main.rs:63 | `new_api.js` in any relative directory beneath `web/` is `application/javascript` |
| `Server.DeclarationContentType` | src/main.rs:59-70 | a `stem.d.ts` file in a relative directory beneath `web/` is `application/octet-stream`, because only `ts` counts (for any directory, see `Server.MimeTypeByLastExtension`) |
| `Server.DeclarationEntries` | src/main.rs:18-19 | the two declaration entries of the allow-list are `new-api/pkg/new_api_bg.wasm.d.ts` and `new-api/pkg/new_api.d.ts` |
| `Server.ServedDeclarationFiles` | src/main.rs:18-19 | the two allow-listed declaration files, `new_api_bg.wasm.d.ts` and `new_api.d.ts`, are served as `application/octet-stream` |
| `Server.MimeTypeCaseSensitive` | src/main.rs:61 | `INDEX.HTML` is `application/octet-stream`: the table is case-sensitive |
| `Server.RouteWithoutQuery` | src/main.rs:25 | a URL without `?` is routed as it stands |
| `Server.ServeRoot` | src/main.rs:27-44 | `GET /` with the index document on disk returns its bytes as `text/html` |
| `Server.RefuseUnlisted` | src/main.rs:31-33 | `GET /<path>` for a relative path off the allow-list (`/secret.txt`, say) is 404 whatever is on disk, for any base directory |
| `Server.ServeWasm` | src/main.rs:31-44 | `GET /new-api/pkg/new_api_bg.wasm` on disk returns its bytes as `application/wasm` |
| `Server.MissingScript` | src/main.rs:36 | `GET /new-api/pkg/new_api.js` missing from disk is 404 |
| `Server.UnreadableIndex` | src/main.rs:46-50 | `GET /index.html` whose read fails is 500 |
| `LogQuery.ParseSegment` | web/common/src/lib.rs:178-186 | a pair is produced iff the segment has a `=` and its text before the first `=` starts with the prefix; the pair is that text and the text up to the second `=` |
| `LogQuery.CollectPairs` | web/common/src/lib.rs:177-188 | no more pairs than segments; every key keeps the prefix; every pair is the pair of some segment |
| `LogQuery.ParseUrlQueryString` | web/common/src/lib.rs:174-188 | no more pairs than `&`-separated segments |
| `LogQuery.ParseQueryConcat` | web/common/src/lib.rs:177-188 | the pairs of `a&b` are the pairs of `a` followed by the pairs of `b` (query order) |
| `LogQuery.ParseSingleSegment` | web/common/src/lib.rs:177-187 | a query without `&` yields exactly its one segment's pair, if any |
| `LogQuery.PairsAccountedFor` | web/common/src/lib.rs:207-220 | each pair yields exactly one directive or one failure |
| `LogQuery.ApplyPairsSplits` | web/common/src/lib.rs:207-221 | the loop appends, in order, the directives of the parsed values and the failures of the others, and changes nothing else |
| `LogQuery.InitLoggerOutcome` | web/common/src/lib.rs:199-222 | defaults first, then one directive per parsed `loglvl_` pair in query order; failures collected in query order; without a leading `?` only the defaults |
| `LogQuery.ParseSegmentOfPair` | web/common/src/lib.rs:179-186 | the segment `key=value` with `=`-free parts yields exactly `(key, value)` when the key has the prefix |
| `LogQuery.QueryOfPair` | web/common/src/lib.rs:177-188 | a query that is one such segment yields exactly that one pair |
| `LogQuery.SinglePairQuery` | web/common/src/lib.rs:199-222 | `?key=value` with a prefixed key configures the defaults followed by that pair's outcome |
| `LogQuery.SingleLevelQuery` | web/common/src/lib.rs:199-222 | `?loglvl_base=<level>` sets the base level and `?loglvl_<m>=<level>` module `m`'s level, after the defaults; a value that is not a level adds nothing and is reported once |
| `GraphicsContext.AtLeastOne` | web/common/src/lib.rs:123-124 | the clamped dimension is at least one and equals the input when that is non-zero |
| `GraphicsContext.NewGraphics` | web/common/src/lib.rs:110-111 | a new context's surface size is the requested size clamped to at least one |
| `GraphicsContext.Resized` | web/common/src/lib.rs:88-90 | after `resized(w, h)`, `physical_size` is `(max(w,1), max(h,1))`; the surface is configured once more |
| `GraphicsContext.Render` | web/common/src/lib.rs:75-85 | rendering adds one frame and leaves the surface size alone |
| `GraphicsContext.ResizedRoundTrip` | web/common/src/lib.rs:122-124 | a non-zero size is reported back unchanged |
| `GraphicsContext.ResizedLastWins` | web/common/src/lib.rs:122-124 | only the latest resize determines the reported size |
| `Application.New` | web/new-api/src/lib.rs:28-31 | a new application is building, holds the proxy, and has spawned nothing |
| `Application.RenderApp` | web/new-api/src/lib.rs:34-41 | rendering changes nothing unless running; then only the graphics render |
| `Application.ResizeApp` | web/new-api/src/lib.rs:43-49 | resizing changes nothing unless running; then only the graphics resize |
| `Application.OnWindowEvent` | web/new-api/src/lib.rs:59-64 | `Resized` resizes, `RedrawRequested` renders, `CloseRequested` requests exit, every other event is ignored; no event spawns a build |
| `Application.OnResumed` | web/new-api/src/lib.rs:67-98 | while building with the proxy: take it and spawn exactly one build; otherwise nothing changes |
| `Application.OnUserEvent` | web/new-api/src/lib.rs:100-113 | while running the event is dropped; otherwise run with the window and the context resized to the window |
| `Application.StartUp` | web/new-api/src/lib.rs:88-112 | from `new`, `resumed` then the delivered context built by `Graphics::new` at the inner size leaves the app running on that window with the clamped inner size, one configure, no frame, and the one build |
| `Application.StepPreservesInv` | web/new-api/src/lib.rs:18-113 | every handler keeps: at most one build, none while the proxy is held, a running surface at least 1x1 |
| `Application.RunPreservesInv` | web/new-api/src/lib.rs:18-113 | the invariant holds after any event sequence |
| `Application.AtMostOneBuild` | web/new-api/src/lib.rs:67-97 | from `new`, any event sequence spawns at most one build, and a running surface is never zero-sized |
| `Application.BuildUsesOwnProxy` | web/new-api/src/lib.rs:71-95 | every spawned build reports through the proxy created by `new` |
| `Application.RunningKeepsBuilds` | web/new-api/src/lib.rs:68-70 | once running, no further build is spawned |
| `Application.RunningIsAbsorbing` | web/new-api/src/lib.rs:100-112 | once running, always running, with the same window and graphics context |
| `Application.SecondContextIgnored` | web/new-api/src/lib.rs:102-105 | a graphics context delivered while running leaves the state unchanged |
| `Application.NoDrawingBeforeRunning` | web/new-api/src/lib.rs:34-49 | before running, resize and redraw events change nothing |
| `Application.RunningCountsWork` | web/new-api/src/lib.rs:34-64 | while running, frames grow by the number of redraws and surface configurations by the number of resizes |

## Left out

- The HTTP listener and the request loop (src/main.rs:4-13): network I/O.
- `request.respond(response).unwrap()` (src/main.rs:44, src/main.rs:49, src/main.rs:55): the response is returned instead of sent; a failed send, on which the server panics, is not modelled.
- Logging (`env_logger`, `log::*`, the fern dispatch's output and formatting, `console_log`, the panic hook): side effects that never change a response or a state.
- How fern resolves the directive list into effective levels (later `level_for` for the same module replacing an earlier one, module-path matching): a library the source calls into. The model stops at the ordered directive list.
- `LevelFilter::from_str`: a library parser, taken as the parameter `parse`.
- Percent-decoding: the URL is compared as the HTTP library hands it over, undecoded; no decoding is modelled.
- Path normalisation by the operating system (symbolic links, `..` resolution in `exists`/`is_file`/`read`): the filesystem map is keyed by the joined path string.
- All wgpu work: `Triangle::init` and `draw`, the GPU side of `Graphics::new` and `render`, `surface.configure` (recorded only as a counter), and the `GraphicsError` type with the `impl_errors!` macro.
- GraphicsContext.Render: a surface error from `render`, on which the application panics (`expect_throw`), is not modelled; every render succeeds.
- Application.OnResumed: creating the window, finding the canvas, building the context asynchronously and sending it through the proxy are not modelled; the created window is a parameter and the delivered context arrives as a separate `UserEvent`.
- `web/old-api/src/lib.rs`: a closure forwarding events to `Graphics` with no state of its own.
- `wasm_bindgen` entry points (`run`), `spawn_local` futures and the query string read from `web_sys`: browser plumbing; the search string is a parameter of `LogQuery.InitLogger`.
