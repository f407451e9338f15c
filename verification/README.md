# flaty cache core, URL paths and front matter — a Dafny model

This project models the sequential core of a small Markdown web server:

- **Change detection** (`FileDigest`, `LegacyCache`, `FileCache`). A file's digest is its modification time, size and content hash. Probing a file against a previous digest skips the read when size and time match. Otherwise it reads and hashes the text. The text counts as changed only when the hash moved. Three revisions are modelled: `load_file`, the older `load`/`reload` pair, and `load_file1`.
- **The cache entry** (`CacheBase`). An entry holds `last_check`, `digest` and `value`. One `Load` call either:
  - returns the stored value without probing, when the last probe was under two seconds ago (debounce);
  - or probes the file, then keeps the value (unchanged), keeps it with an I/O error, replaces it (recompute succeeded), or keeps it with the recompute error.
  A value always comes back, and it is the one stored afterwards.
- **The cache API** (`Caches`). `Cache` ties an entry to one path. `CacheMap` keys entries by the path's `PathBuf` identity, creates the default entry for an unseen key, and loads it on the path as given.
- **Request paths** (`UrlPaths`, `Web`). `UrlPath` validity, its accessors (`relative_path`, `last`, `extension`, `parent`), the web layer's `to_components`, and the component check that turns a path into `NotFound`.
- **Front matter** (`MarkdownPages`). `split` cuts a `---` header from a page. `parse_header` keeps the header's string entries. `markdown` adds the rendered body as `contents`.

Every step is one pure function. The filesystem, the clock, the hash, `compute`, the TOML parser, the Markdown renderer and the whitespace class are all parameters:

- A probed file is a `FileState`. Either opening the file or reading its metadata fails (`Unavailable`), or the file is `Present` with a time, a size and the result the later `read_to_string` would give. So a failing read surfaces only when the read is actually attempted.
- The filesystem seen by the cache is `fs: string -> FileState`.
- The clock is an integer number of milliseconds.
- The hash is an arbitrary `string -> u128`. It is not assumed injective, so "changed" always means "the hash changed".
- Strings are sequences of characters, so the model's indices count characters where Rust's `find` and `rfind` count bytes. Every separator searched for (`/`, `.`, `_`, `---`) is ASCII, so each cut sits next to an ASCII separator and every substring the model cuts is the one the Rust code cuts.

`LoadFile` returns a `read` flag and `CacheBase.Load` returns `probed` and `computed` flags. They record the side effects the source's performance claims are about: reading the file, probing it, running `compute`.

Three behaviours of the code are worth noting:

- A failing `compute` records the new digest but keeps the old value (src/cache/base.rs:65-71). `CacheBase.Load` states exactly that.
- `Cache::new` takes only the path and starts from `T::default()` (src/cache/mod.rs:19-27). `Caches.New` takes that default as its `seed` argument.
- The two-second debounce interval is a constant in the code, `CacheBase.DebounceSecs`.

## Model

| member | source | states |
|---|---|---|
| FileDigest.LoadFile | src/cache/digest.rs:13-39 | An open or metadata failure gives that error and no digest. Any returned digest carries the file's current time and size. If the previous digest's size and time match, the result is that same digest, with no contents and no read. Otherwise a failing read gives its error. After a read, the digest hashes exactly the text read. Contents come back exactly when there was no previous digest or the hash differs. |
| FileDigest.RefetchTakesFastPath | src/cache/digest.rs:22-31 | Probing the same file again with the returned digest takes the fast path: the same digest, no contents, no read. |
| FileDigest.ContentsReturnedIff | src/cache/digest.rs:22-38 | For a readable file, contents come back exactly when there is no previous digest, or when the metadata and the hash both differ. Whenever contents come back, the digest's hash is the hash of those contents. |
| LegacyCache.Load | src/cache.rs:15-25 | Always reads. It succeeds exactly when the file opens and reads, and then returns the text together with `{mtime, size, hash(text)}`. Errors pass through unchanged. |
| LegacyCache.Reload | src/cache.rs:27-47 | Matching size and time give "unchanged" whatever the contents. When the metadata moved, the result is "unchanged" exactly when the hash is the old one. A reported change carries the fresh metadata, the hash of the text (different from the old hash) and the text itself. |
| LegacyCache.DigestEqualityIsFieldwise | src/cache.rs:8-13 | Two digests are equal exactly when time, size and hash are all equal. |
| LegacyCache.LoadIsFirstLoadFile | src/cache.rs:15-25 | `load` gives the same errors as `load_file` with no previous digest. On success it gives the same digest and the same text. |
| LegacyCache.ReloadAgreesWithLoadFile | src/cache.rs:27-47 | `reload(d)` fails exactly when `load_file(Some(d))` fails, with the same error. It reports a change exactly when `load_file` returns contents, and then with the same digest and text. |
| FileCache.LoadFile1 | src/filecache.rs:13-36 | On every input the early-return procedure gives the same result as `load_file`. In particular, matching metadata return the old digest and no contents, and returned contents always hash to the digest's hash. |
| CacheBase.WithinDebounceIff | src/cache/base.rs:33-34 | `elapsed().as_secs() < 2`, with a saturating elapsed time, is the same as "`last_check` is set and fewer than 2000 ms have passed". |
| CacheBase.Load | src/cache/base.rs:26-75 | Within the debounce window the call returns `Ok(value)` with no probe and no state change. Otherwise it probes and sets `last_check := now`, then takes one of four branches. Unchanged: the refreshed digest is recorded and `Ok(old value)` returned. I/O error: digest and value are kept and `Err((old value, CannotRead(path, e)))` returned. Changed, `compute` ok: digest and value are replaced and `Ok(new)` returned. Changed, `compute` fails: the new digest is recorded, the value kept, and `Err((old value, CannotProcess(path, e)))` returned. The reply's value is always the stored value afterwards. |
| CacheBase.ValueChangesOnlyOnRecompute | src/cache/base.rs:42-71 | The stored value changes only when the probe returned new contents and `compute` succeeded on them, and then the new value is what `compute` gave. |
| CacheBase.FirstCallProbes | src/cache/base.rs:18-41 | A default entry is probed on its first call at any clock reading. If the file is readable, `compute` runs. |
| CacheBase.SecondCallDebounced | src/cache/base.rs:33-67 | After a call that probed, a call less than two seconds later does no probe and no compute, changes nothing and returns `Ok` of the stored value. |
| CacheBase.Run | src/cache/base.rs:26-75 | Over a sequence of calls, `compute` runs at most as often as the file is probed, and the file is probed at most once per call. |
| CacheBase.QuietWhileDebounced | src/cache/base.rs:33-37 | While every call falls under two seconds after the last probe, a sequence of calls probes nothing and leaves the entry unchanged. |
| CacheBase.DebounceBound | src/cache/base.rs:33-67 | However many calls fall inside one two-second window, the file is probed at most once and `compute` runs at most once. |
| Caches.New | src/cache/mod.rs:19-27 | A new cache stores its path and starts from the default entry: no `last_check`, no digest, the default value. |
| Caches.Load | src/cache/mod.rs:29-34 | `Cache::load` is the entry's load on the stored path, and the path is kept. |
| Caches.NewMap | src/cache/mod.rs:42-54 | A new or default cache map has no entries, and every entry it creates later starts from the given `T::default()`. |
| Caches.MapLoad | src/cache/mod.rs:57-63 | Entries are keyed by the path's key, the component-wise identity a `PathBuf` compares by. After the call the keys are the old keys plus the path's key, so keys are never removed. Every entry under another key is unchanged. A known key loads its own entry on the path as spelled. An unseen key behaves exactly like the first load of a fresh `Cache` built from the map's `T::default()`, which never changes. |
| Caches.MapFirstLoadProbes | src/cache/mod.rs:57-63 | Loading a path whose key the map has not seen always probes the file. |
| Caches.SpellingsShareEntry | src/cache/mod.rs:39-63 | Two spellings with the same key share one entry. After a load of one that probed, a load of the other under two seconds later does no probe and no compute, leaves the map unchanged and returns `Ok` of the stored value. |
| Caches.PageScenario | src/cache/base.rs:26-75 | Cache seeded with `""`. `# Hi` renders to `<h1>Hi</h1>`. After the rewrite to `# Hi!`, a later call renders `<h1>Hi!</h1>`. Once the file is gone, the next call returns `<h1>Hi!</h1>` with a read error. Of the hash, only that it tells the two texts apart is assumed; the renderer is assumed to give those two outputs. |
| UrlPaths.ValidIffLocallyValid | src/url.rs:49-63 | `UrlPaths.Valid`, the model of `valid`, accepts exactly the strings that start with `/` in which every `/` other than the last character is followed by something other than `/`, `.` or `_`. |
| UrlPaths.ValidHasNoDoubleSlash | src/url.rs:49-63 | A valid path never contains `//`. |
| UrlPaths.New | src/url.rs:5-11 | `UrlPath::new(s)` is `Some` exactly for valid `s`, and then wraps `s` unchanged. |
| UrlPaths.RelativePath | src/url.rs:17-19 | The first character followed by `relative_path()` is the path. For a valid path, `"/" + relative_path() == path()`. |
| UrlPaths.Last | src/url.rs:21-28 | `last()` is the suffix after the final `/`. It holds no `/`, and it is empty exactly when the path has a final slash. |
| UrlPaths.Extension | src/url.rs:30-34 | The extension is absent exactly when `last()` has no `.`, so always when the path has a final slash. Otherwise it is the suffix of `last()` after its final `.`, and holds no `.` itself. |
| UrlPaths.Parent | src/url.rs:37-46 | The parent is absent exactly when the path has no `/` or its last `/` is at index 0. Otherwise it is a non-empty strict prefix of the path. With a final slash, `parent + "/"` is the path; without one, `parent + "/" + last()` is the path. |
| UrlPaths.ParentKeepsValid | src/url.rs:37-46 | The parent of a valid path is valid. |
| UrlPaths.ParentOfDirectoryPath | src/url.rs:37-46 | As written, `/a/b/` has parent `/a/b`. With the index taken in the stripped path, its parent is `/a`. |
| UrlPaths.ParentOfSegment | src/url.rs:37-46 | With the index taken in the stripped path: there is no parent exactly when the stripped path has no `/` or its last `/` is at index 0. Otherwise the parent, followed by `/` and a segment with no `/`, rebuilds the path without its final slash. |
| UrlPaths.ParentOfSegmentIgnoresFinalSlash | src/url.rs:39-42 | With the index taken in the stripped path, `p/` and `p` have the same parent. |
| UrlPaths.RejectsRelativePath | src/url.rs:67 | `foo` is rejected. |
| UrlPaths.DirectoryHasNoExtension | src/url.rs:68 | `/foo/bar.quz/` is valid and has no extension. |
| UrlPaths.FileExtension | src/url.rs:69-72 | `/foo/bar.quz` is valid and its extension is `quz`. |
| Web.ToComponents | src/web.rs:111-122 | The result is `Some` exactly when the input starts with `/` and contains no `//`. `/` gives the empty list. For other accepted inputs, `"/" + join(components, "/")` is the input with at most one trailing `/` removed. No component contains `/`. |
| Web.ComponentsNonEmpty | src/web.rs:111-122 | Every component returned is non-empty. |
| Web.CheckedComponents | src/web.rs:64-70 | The handler keeps the components of `to_components` exactly when it succeeded and every component is non-empty and starts with neither `.` nor `_`; otherwise it answers `NotFound`. |
| Web.CheckedIffValid | src/web.rs:64-70 | The handler's component check passes exactly for the paths `UrlPath` calls valid. |
| Web.TrailingSlashIgnored | src/web.rs:119 | For a non-empty input not ending in `/`, adding one `/` does not change the components. |
| Web.RootExamples | src/web.rs:126-128 | `""` and `bla` are rejected. `/` gives no components. |
| Web.OneSegmentExamples | src/web.rs:129-130 | `/bla` and `/bla/` give `["bla"]`. |
| Web.TwoSegmentExample | src/web.rs:131 | `/bla/blo` gives `["bla", "blo"]`. |
| Web.TwoSegmentDirectoryExample | src/web.rs:132 | `/bla/blo/` gives `["bla", "blo"]`. |
| MarkdownPages.SplitTrimmed | src/markdown.rs:39-41 | A result `(h, b)` rebuilds the text as `"---\n" + h + "\n---\n" + b`, with the first closing marker ending `h`. There is no result exactly when the opening marker is missing or no closing marker follows it. |
| MarkdownPages.Split | src/markdown.rs:38-42 | Same as `SplitTrimmed`, applied to the page after leading whitespace is trimmed. The header never contains `"\n---\n"`. |
| MarkdownPages.SplitOfAssembled | src/markdown.rs:38-42 | A page built from whitespace, `"---\n"`, a header whose first marker is the closing one, `"\n---\n"` and a body splits back into exactly that header and body. |
| MarkdownPages.StringEntries | src/markdown.rs:23-31 | The header map has the table's keys, each mapped to that entry's string. |
| MarkdownPages.ParseHeader | src/markdown.rs:19-36 | Without front matter the header is empty and the page is the body. With front matter, the result is `InvalidHeader` exactly when the header does not parse or holds a non-string value. Otherwise it holds exactly the string entries, with the text after the closing marker as body. |
| MarkdownPages.WithContents | src/markdown.rs:15 | `contents` is set to the rendered body and replaces any header entry of that name. Every other header entry stays. |
| MarkdownPages.Markdown | src/markdown.rs:10-17 | `markdown` fails exactly when `parse_header` fails. Otherwise it gives the header variables with `contents` set to the rendered body. |
| MarkdownPages.MarkdownVariables | src/markdown.rs:10-36 | For a page with front matter, rendering fails exactly on a bad header. Otherwise `contents` is the rendered body, the keys are the header keys plus `contents`, and every other variable is a string entry of the header. |
| MarkdownPages.PlainPage | src/markdown.rs:34 | A page without an opening marker renders in full, and `contents` is its only variable. |

## Left out

- Concurrency is not modelled, so each call is one atomic step. This covers the `parking_lot::Mutex` around an entry, the snapshot/probe/relock sequence in src/cache/base.rs:31-41, and `DashMap` contention in `CacheMap`.
- Each call reads the clock once (`now`). The source stamps `last_check` with a fresh `Instant::now()` after the probe and the recompute.
- Real I/O becomes the `FileState` input: tokio `File`, metadata, `read_to_string`, and `slurp`. Opening and reading metadata are one failure case, `Unavailable`.
- These become parameters: `xxh3::hash128`, the TOML parser, pulldown-cmark rendering, and the Unicode whitespace class of `trim_start`.
- TOML values other than strings are a single `TomlOther` case. The parser's table is a map, so the iteration order of the loop in `parse_header` does not matter for the result.
- Error messages become data. The `anyhow` context strings are `CannotRead(path, e)` and `CannotProcess(path, e)`.
- The `Cacheable` trait (src/cache/cacheable.rs) becomes the `compute` parameter. Its `Arc` lifting changes nothing observable.
- The web glue is not modelled: routing, templating and responses in `web()`, `App` and `Config`, and `MyError` beyond `NotFound` (here `None`). The same goes for src/main.rs and src/sass.rs.
- Parts of src/filecache.rs are left out: the `size_of` layout test, the `Load` enum, the `Digest` wrapper, the `todo!()` `load`, and the commented-out duplicate of `CacheBase`. `Digest2` is declared with its default `Empty` (`FileCache.DefaultDigest2`). The source gives it no behaviour to model.
- The rules by which `PathBuf` equates spellings (`a/b`, `a/b/`, `a//b`, `a/./b`) are not modelled. `Caches.MapLoad` takes the resulting key as a `key` function parameter.
- `UrlPath::path` and `has_final_slash` are plain accessors. src/cache/mod.rs gives `Cache` no `path()` method; the `path` field of `Caches.Cache` stands in for the `path()` accessor src/web.rs:77 expects.
- UrlPaths.RelativePath requires a non-empty path, and UrlPaths.Last and UrlPaths.Extension require a `/` in the path. The source panics (slice out of range, `expect("invalid state")`) on inputs that fail these, which a valid `UrlPath` never is.
- UTF-8 char-boundary panics of the Rust slices are not modelled, because strings are character sequences. All cut points sit next to ASCII separators.

## Findings

| source | as written | input that shows it | evidently intended | confidence | as-written member | corrected member |
|---|---|---|---|---|---|---|
| src/url.rs:37-46 | `parent` strips the trailing `/` into `path` but takes the index of the last `/` from the unstripped `self.0`. For a path with a final slash, it therefore only removes that slash. | `/a/b/` gives parent `/a/b` | The index comes from the stripped path, so `/a/b/` and `/a/b` both have parent `/a` | medium; not executed | UrlPaths.Parent (UrlPaths.ParentOfDirectoryPath shows the input) | UrlPaths.ParentOfSegment (UrlPaths.ParentOfSegmentIgnoresFinalSlash) |
