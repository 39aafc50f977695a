# WebP Server Go — cache coherence of the request handler

The server answers `GET /<path>` by converting the JPEG or PNG at
`IMG_PATH + <path>` into WebP once, storing the result under
`<cwd>/exhaust/`, and serving that stored artifact from then on. The
filesystem is the whole cache index. This project models the handler's
per-request decision procedure in `webp_server.go` as pure Dafny functions
over strings and an abstract filesystem, and proves what it promises.

The model has four parts:

- **Path derivation** (`GoPath`, `GoStrings`, `Handler.Resolve`). These are
  Go's `path.Ext`, `path.Base` and `path.Dir`, plus element 1 of
  `strings.Split`. From them the model derives the source path, the
  extension token, the artifact path
  `cwd + "/exhaust" + Dir(p) + "/" + Base(p) + ".webp"` and the artifact
  directory. The suffix `.webp` is appended to the name, not substituted
  for the extension. For a file at the root, `Dir` is `/`, so the artifact
  path contains `exhaust//`.
- **Allow-list gate** (`AllowList.Find`). A linear, case-sensitive search
  that returns the first index, or `(-1, false)`.
- **Cache state machine** (`Handler.Decide`, `Handler.Dispatch`). Two
  existence facts are read from disk, source first. They select one of four
  actions: evict a stale artifact then answer 404, answer 404, serve the
  cached artifact, or generate then serve. The filesystem (`Files`) holds
  regular files with their bytes, directories, and paths whose `os.Stat`
  fails with an error other than "not found".
- **Decoder choice and write** (`Encoder`). The decoder is chosen by
  substring search over the whole source path, with `jpg`/`jpeg` looked for
  before `png`. The buffer is then written to the artifact path whether or
  not encoding succeeded.

Two situations make the Go code panic, and both are modelled as the
response `Panic(...)` with the filesystem unchanged:

- the request's last element has no extension, so
  `strings.Split(path.Ext(p), ".")[1]` is out of range;
- `os.Stat` fails with an error other than "not found", so `imageExists`
  calls `IsDir` on a nil value.

The errors of `os.Remove` (line 112) and `os.MkdirAll` (line 123) are
discarded. The errors of the encoder (lines 38-39) and of `ioutil.WriteFile`
(lines 41-42) are only logged. For each call, the model keeps only the
failures that follow from the state of the filesystem:

- `os.MkdirAll` fails on a regular file or a failing stat at the directory
  path. An existing directory is success.
- `ioutil.WriteFile` fails on a directory or a failing stat at the path, or
  on a parent that is not a directory.
- `os.Remove` does nothing to anything but a regular file. The handler only
  passes it a path the existence check reported as a regular file.

A call that fails this way changes nothing, and the handler still answers
with the artifact path.

Two behaviours of the code are kept as written:

- A request path without an extension panics at `webp_server.go:77`, where
  element 1 of the split does not exist. It does not reach the gate.
- Failed generation at `webp_server.go:119-132` is not turned into an error
  response. The artifact path is served regardless, even if it names no
  file.

## Model

| member | source | states |
|---|---|---|
| AllowList.Find | webp_server.go:159-166 | `(i, true)` exactly when `val` is in the list, with `i` the least index holding it; otherwise `(-1, false)` |
| GoStrings.Contains | webp_server.go:32-34 | true exactly when `sub` occurs as a contiguous block of `s` |
| GoStrings.SecondField | webp_server.go:77 | element 1 of `strings.Split(s, ".")`, i.e. the text between the first and second separator; None (index panic) exactly when `s` holds no separator |
| GoPath.Ext | webp_server.go:77 | a non-empty result is the extension of the last path element (a suffix that starts with `.` and has no later `.` or `/`); the result is `""` exactly when the last element has no extension |
| GoPath.ExtensionIsUnique | webp_server.go:77 | a path has at most one extension, so `Ext` returns the text after the final dot of the final element only |
| GoPath.Base | webp_server.go:80 | never empty; `/` or free of `/`; for a path without a trailing slash, the text after the last `/` |
| GoPath.Dir | webp_server.go:83 | for a clean path: starts with `/`, has no trailing `/` unless it is the root, and rejoined with `/` and `Base` gives the path back |
| GoPath.SplitOfJoin | webp_server.go:80-83 | joining a clean directory (or the root) and a proper name gives a clean path that `Dir` and `Base` split back into exactly that directory and name |
| Handler.TokenOfExtension | webp_server.go:77 | splitting an extension at `.` gives element 1 equal to the extension without its dot, and that text behind a `.` is the extension again |
| Handler.ExtensionToken | webp_server.go:77 | element 1 of the split of `Ext(p)` is `Ext(p)` without its leading dot, or the panic when `Ext(p)` is empty |
| Handler.Resolve | webp_server.go:71-98 | source is `IMG_PATH + p`; artifact is `cwd + "/exhaust"`, then one extra `/` for a root-level file, then `p + ".webp"`; the artifact directory is `cwd + "/exhaust" + Dir(p)`, and it is the artifact's parent |
| Handler.ResolveChild | webp_server.go:80-98 | a request for `name` in `dir` has Base `name`, Dir `dir`, and artifact `cwd/exhaust` + `dir` + `/` + `name` + `.webp` |
| Handler.ArtifactJoin | webp_server.go:86-95 | `Dir(p) + "/" + Base(p) + ".webp"` is `p` with `.webp` appended, after an extra `/` when `Dir(p)` is the root |
| Handler.ArtifactParent | webp_server.go:95-98 | the artifact path lies directly in the artifact directory |
| Handler.RootLevelDir | webp_server.go:83 | `Dir(p)` is `/` exactly when `p` has no `/` past the leading one |
| Handler.ArtifactNameHasNoSlash | webp_server.go:80-86 | `Base(p) + ".webp"` of a clean path holds no `/` |
| Handler.Decide | webp_server.go:109-121 | the action serves or generates exactly when the source exists, and evicts or serves the cache exactly when the artifact exists, so the artifact is valid exactly while its source exists |
| Handler.Generate | webp_server.go:122-128 | when the artifact directory can be made and the artifact is absent: exactly that directory and the encoder's output on the source bytes are added; when a file or a failing stat blocks the directory: nothing changes; in no case does another file change |
| Handler.Dispatch | webp_server.go:100-133 | a panic changes nothing; the panic for a missing extension happens exactly when there is no token; a stat panic names the source or the artifact, and only one whose stat fails; 403 exactly when the token is not allowed; 404 only for a missing source; Serve only of the artifact path and only for an existing source; the only possible changes are to the artifact file and the artifact directory |
| Handler.Handle | webp_server.go:68-134 | the missing-extension panic happens exactly when the request's last element has no extension; a panic changes nothing; 404 only if the source is missing and Serve only if it exists; stat failures are never created or cleared |
| Files.Stat | webp_server.go:152 | a failing stat wins over everything else; "does not exist" exactly when the path is neither a file nor a directory; a regular file is never also a directory |
| Files.ImageExists | webp_server.go:151-157 | Some(true) exactly for an existing non-directory; Some(false) for a missing path or a directory; None (nil-dereference panic) exactly when stat fails otherwise |
| Files.Remove | webp_server.go:111-113 | deleting a regular file removes exactly that entry; anything else at the path is left alone |
| Files.MkdirAll | webp_server.go:123 | afterwards the path is a directory exactly when it was missing or already a directory; no file changes and every path reads the same bytes; at most that one directory is added |
| Files.ReadFile | webp_server.go:31 | the paths the handler's existence check accepts read as their bytes; every other path reads as nothing (the read error is dropped) |
| Files.ReadAfterWrite | webp_server.go:31-41 | a write that can happen is read back as exactly the data written; a write that cannot leaves the path reading as before; other paths always read as before |
| Files.ReadAfterRemove | webp_server.go:111-112 | an existing file reads as nothing once removed; other paths read as before |
| Files.WriteFile | webp_server.go:41 | when the path is missing or a regular file and its parent is a directory, the file holds exactly the data; otherwise nothing changes |
| Encoder.SelectDecoder | webp_server.go:32-36 | JPEG exactly when the whole source path contains `jpg` or `jpeg`; PNG exactly when it contains `png` and neither of those; otherwise no decoder |
| Encoder.DirectoryNameSteersDecoder | webp_server.go:32-36 | a PNG under a directory named `jpg` goes to the JPEG decoder, because the search covers the whole path |
| Encoder.WebpEncode | webp_server.go:28-46 | the artifact gets the encoder's output for the chosen decoder and the source bytes, whatever the encoder reported; no other entry changes |
| CacheLaws.ExtensionOfRequest | webp_server.go:77-101 | the token the gate checks is the extension of the request path |
| CacheLaws.MissingExtensionPanics | webp_server.go:77 | a request whose last element has no extension panics before the gate, and nothing changes |
| CacheLaws.GateComesFirst | webp_server.go:100-106 | an extension outside the allow-list gives 403 with the filesystem unchanged, whatever exists on disk |
| CacheLaws.SourceStatFailurePanics | webp_server.go:108-109 | a source whose stat fails makes the handler panic with nothing changed |
| CacheLaws.ArtifactStatFailurePanics | webp_server.go:111-119 | an allowed request whose source stats fine but whose artifact's stat fails panics at the artifact's existence check, with nothing changed |
| CacheLaws.MissingSourceEvicts | webp_server.go:108-117 | a missing source gives 404, and afterwards there is no artifact; an absent artifact leaves the disk unchanged, and a present one is the only file removed |
| CacheLaws.DispatchHit | webp_server.go:119-120 | when both files exist, the dispatch serves the artifact path and nothing changes |
| CacheLaws.CacheHit | webp_server.go:119-120 | when source and artifact both exist, the artifact path is served and the disk is unchanged, with no regeneration |
| CacheLaws.DispatchGenerate | webp_server.go:121-133 | on a miss with room for the directory, the directory and the encoded artifact are added, the artifact path is served, and reading it gives the encoder's output on the bytes read from the source |
| CacheLaws.GenerateOnMiss | webp_server.go:121-133 | source present, artifact absent, and the artifact directory absent or already a directory: the directory and the artifact (encoder output on the source bytes) are added, the artifact path is served, the bytes `SendFile` reads there are that encoder output, and nothing else changes |
| CacheLaws.DispatchGenerateBlocked | webp_server.go:121-133 | when a regular file sits in place of the artifact directory, nothing is created and the artifact path is still served |
| CacheLaws.GenerateBlockedServesMissing | webp_server.go:121-133 | the same at request level: the served path names no file |
| CacheLaws.DispatchIdempotent | webp_server.go:100-133 | dispatching again on the filesystem a dispatch produced gives the same response and changes nothing |
| CacheLaws.RequestIsIdempotent | webp_server.go:68-134 | the same request twice: the second gives the same response and leaves the disk as the first left it (generate once, then hit; evict once, then 404) |
| CacheLaws.ArtifactPathsAreDistinct | webp_server.go:86-95 | two clean request paths with the same artifact path are equal |
| CacheLaws.RequestOfArtifact | webp_server.go:86-95 | the request path can be read back from the artifact path between the cache root and `.webp` |
| CacheLaws.UnshiftRequest | webp_server.go:83-86 | dropping the extra `/` of a root-level artifact name recovers the request path, and no clean path is changed by the rule |
| Scenarios.LastDotNaming | webp_server.go:77-95 | for `stem.ext` where `stem` may hold dots (as in `cat.v2.jpg`), the token is `ext` alone and the artifact is the whole name plus `.webp` |
| Scenarios.DotExtensionSuffix | webp_server.go:77 | `.` followed by text with no dot or slash is the extension of any path ending in it |
| Scenarios.DispatchGenerateThenEvict | webp_server.go:108-133 | after path derivation: generate and serve, then, once the source is deleted, 404 with the artifact removed; the files are those at the start minus the source, and the artifact directory stays |
| Scenarios.GenerateThenEvict | webp_server.go:108-133 | one artifact's life: a first GET generates and serves it; after the source is deleted, the same GET gives 404 and deletes it; the files are those at the start minus the source, the artifact directory the first GET made stays, and stat failures are as before |

## Left out

- HTTP: the fiber app, routing, and the bodies and headers of `c.Send`, `c.SendStatus` and `c.SendFile`. The response is the `Response` datatype. Fiber's recovery (or not) from a panic is not modelled.
- Configuration loading (`load_config`, JSON decoding, HOST, PORT). `IMG_PATH` and `ALLOWED_TYPES` are passed in as a `Config`.
- `os.Getwd`: the working directory is a parameter. A failed `Getwd` gives `""`, which the parameter covers.
- The codecs (JPEG/PNG decode, WebP encode) are third-party code. The `Encoding` function stands in for them: it is uninterpreted and total, and takes the decoder choice and the source bytes.
- QUALITY parsing (`strconv.ParseFloat` and its `float32` cast) is floating point. The value is only passed through to the encoder, so it is folded into `Encoding`.
- Logging and the progress prints.
- Concurrency: the duplicate-generation and evict/serve races between requests. The model handles one request at a time.
- Invalidation by modification time or content, single-flight generation and 500-on-failure. The code has none of these.
- `path.Clean`. Request paths are required to be clean: absolute, with no empty, `.` or `..` element and no trailing slash. `GoPath.Dir` is defined only for such paths. Fiber's raw `c.Path()` for other shapes is not modelled.
- Paths are compared as strings. `exhaust//x` and `exhaust/x` are different keys, and there is no normalisation.
- `os.MkdirAll` creates missing parent directories. The model tracks only the one directory the handler asks for.
- `os.Remove` of a directory is not modelled. The handler reaches it only for a path the existence check reported as a regular file.
- Read errors on an existing regular file (for example one with mode 000) are not modelled. The code would read no data at `webp_server.go:31` and encode that. The model reads the file's bytes instead.
- Failures of `os.Remove`, `os.MkdirAll` and `ioutil.WriteFile` caused by the environment (permissions, a read-only or full disk) are not modelled. In the model these calls succeed whenever the filesystem's state allows them.
- CacheLaws.MissingSourceEvicts: promises the artifact is gone only because `os.Remove` of a regular file never fails in the model.
- CacheLaws.GenerateOnMiss: promises the written artifact only because `os.MkdirAll` and `ioutil.WriteFile` never fail for environmental reasons in the model. The same holds for `CacheLaws.DispatchGenerate`.
- Go strings are byte sequences. The model uses `seq<char>`, which is the same for the ASCII paths the logic depends on.
- CacheLaws.GenerateOnMiss: also states the exact result only when the artifact directory is absent or already a directory. The other cases are covered by `GenerateBlockedServesMissing` and the frame conditions of `Handler.Dispatch`.
