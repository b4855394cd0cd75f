# trans: a verified model of a LAN file-sharing server

`trans.go` is a small HTTP server for a local network. It has three parts:

- a file handler that serves a shared directory tree;
- an upload page with an upload handler that stores multipart files into a chosen sub-directory of the share;
- a directory check used by that page.

This project models the request-handling core of that server in Dafny and proves properties of the model.

The parts modelled:

- **Paths** (`paths.dfy`, `segments.dfy`): `path.Clean` as a walk over a stack of path elements, plus `filepath.Join`, `path.Base`, `filepath.Ext` and `split_filename`.
- **DotDot** (`dotdot.dfy`): the `containsDotDot` traversal test on the client-chosen directory.
- **FileSystem** (`filesystem.dfy`):
  - the served tree is a map from cleaned paths to files and directories;
  - `os.Open` and the component probe of `mapDirOpenError`;
  - `Dir.Open` and `check_is_dir`;
  - the `O_WRONLY|O_CREATE` write used by uploads.
- **Streams** (`streams.dfy`):
  - an opened file as an `io.ReadSeeker`;
  - `get_file_size`;
  - the 4096-byte copy loop of `serveContent`, as a method with loop invariants.
- **Http, Cache, Decimal, Html** (`http.dfy`, `cache.dfy`, `decimal.dfy`, `html.dfy`):
  - `FastResp`, `http.Error`, `localRedirect` and `toHTTPError`;
  - `isZeroTime`, `setLastModified`, `checkIfModifiedSince` and `writeNotModified`;
  - `strconv.FormatInt`, with its parser as partner;
  - `htmlEscape`, with an unescaper as partner.
- **Listing** (`listing.dfy`):
  - `dirList`: the name sort, the row classes, the escaped link text and the page layout;
  - `formatFileSize`.
- **Content** (`content.dfy`): `serveContent`, which settles the content type, probes the size, sets the headers and sends the body.
- **Server** (`server.dfy`): `serveFile` and the file handler's `ServeHTTP`.
- **Upload** (`upload.dfy`): `check_dir_handler` and `upload`. This covers:
  - the `..` refusal;
  - the rejection path for a missing directory;
  - the UUID suffix and stored names;
  - the loop that stores each file of the form.

Some services are called but not modelled inside. They are fields of `Platform.Env`, so every property holds whatever they return:

- MIME lookup and content sniffing;
- HTTP date parsing and formatting;
- URL path escaping and the `%.2f` format;
- reading `static/index_part.html`;
- directory reads;
- the static upload page.

The UUID, the clock and the parsed multipart form are parameters.

`main` registers the standard library's `http.Dir` as the file handler's root (trans.go:850, trans.go:853). The model opens paths with the program's own `Dir.Open` (trans.go:81-95) in its place, which behaves the same on a Unix host.

The host is modelled as a slash-separated (Unix) system. `Dir.Open`'s check for the host separator is kept as a parameter.

When a path component is a regular file, `mapDirOpenError` returns `fs.ErrNotExist` (trans.go:73-74), and the model does the same.

The listing deliberately differs from trans.go:189-190: it prints the corrected "PB" unit (see Findings).

## Model

| member | source | states |
|---|---|---|
| Paths.Clean | trans.go:89 | The cleaned path is never empty, is rooted exactly when the input is, and its element stack is in normal form (only names, plus leading `..` when unrooted). |
| Paths.CleanStackOfClean | trans.go:646 | Cleaning twice gives the same element stack as cleaning once. |
| Paths.JoinedStaysWithin | trans.go:89 | Joining a non-empty root with `Clean("/" + name)` gives the root's own cleaned elements followed by names only, so no `..` of the request survives. |
| Paths.JoinedWithinRoot | trans.go:86-89 | For an absolute root, the joined path is the cleaned root itself or starts with the cleaned root and a slash. |
| Paths.SplitFilename | trans.go:51-56 | Stem and extension concatenate back to the name. The extension is empty or a dot followed by no dots or slashes. It is non-empty exactly when the final element contains a dot. |
| Paths.ExtOfDottedSuffix | trans.go:52 | A dot-led suffix without further dots or slashes is exactly the extension of any string it ends. |
| Paths.RedirectResolvesToSlashed | trans.go:310-316 | The Location `Base(url) + "/"` plus the query suffix, resolved as a relative reference (section 5.2 of RFC 3986) against a rooted url without a trailing slash, is `url + "/"`. This holds whenever the last element does not read as a scheme and has no `?` or `#`. |
| Paths.SchemeNamedDirectoryLeaves | trans.go:586-588 | For the directory `/share/a:b`, the Location `a:b/` resolves to a URL with scheme `a`, not to `/share/a:b/`. |
| Paths.QueryNamedDirectoryTruncates | trans.go:586-588 | For the directory `/d/a?b`, the Location `a?b/` resolves to the path `/d/a`. |
| Paths.Base | trans.go:571-587 | `path.Base` is never empty. It is "." for the empty path, "/" exactly for a path of only slashes, and otherwise a slash-free element. |
| Paths.BaseIsLastElement | trans.go:571-587 | For a path with a non-slash character, `path.Base` is its last non-empty slash-separated element. |
| DotDot.ContainsDotDotIff | trans.go:268-278 | `containsDotDot(v)` holds exactly when `..` occurs in `v` as a whole field bounded by `/`, `\` or an end. |
| DotDot.EarlyExitIrrelevant | trans.go:269-271 | The `strings.Contains` shortcut never changes the answer of the field scan. |
| DotDot.PassedHasNoParentElement | trans.go:667-672 | A directory that passes the check has no `..` element when split on slashes. |
| Decimal.IntTextRoundTrip | trans.go:509 | Parsing `strconv.FormatInt(n, 10)` gives back `n`, negative or not. |
| Streams.Rewind | trans.go:413-417 | Seeking to the start succeeds exactly on a seekable stream, and afterwards the whole file remains to be read. |
| Streams.FileSize | trans.go:383-393 | The size probe succeeds exactly when the stream can seek. It reports the file's length and leaves the whole file to be read. Failure gives "seeker can't seek". |
| Streams.Read | trans.go:516 | A read returns at most one buffer of the unread bytes, consumes exactly those, and reports end-of-file exactly when nothing is left. |
| Streams.ReadFull | trans.go:410-411 | The sniff read takes `min(512, unread)` bytes from the front of the unread bytes. |
| Streams.CopyWritesFacts | trans.go:512-526 | The loop's writes concatenate to the unread bytes. Every write is at most 4096 bytes, all but the last two are full, and the last is the empty write at end-of-file. |
| Streams.CopyLoop | trans.go:512-526 | The imperative loop produces exactly those writes, with the same four facts. |
| FileSystem.FirstObstacle | trans.go:64-77 | The component probe stops at the first non-empty prefix that is missing or not a directory, and every earlier prefix is a directory. |
| FileSystem.FirstObstacleNotDir | trans.go:64-77 | The probe stops at a non-directory exactly when some component is blocked by a regular file with directories before it. |
| FileSystem.OsOpen | trans.go:90-92 | Opening succeeds exactly for a path in the tree. A failure reports ENOTDIR exactly when a component is a regular file. |
| FileSystem.MapDirOpenError | trans.go:59-78 | Not-exist and permission errors pass through. Any other error becomes not-exist exactly when a component is a regular file. |
| FileSystem.DirOpen | trans.go:81-95 | A name containing a non-slash host separator is invalid. Otherwise opening succeeds exactly when the joined, cleaned path is in the tree. Failures are invalid-path or not-exist only. |
| FileSystem.DirOpenConfined | trans.go:81-95 | Whatever the name, `Dir.Open` opens the root's cleaned elements followed by names only. Under an absolute root it stays within the cleaned root. |
| FileSystem.WriteInPlace | trans.go:774-782 | The write fails on a directory. It succeeds exactly for an existing file or a new file in an existing directory. It changes only that path and overlays the old bytes, stamping the current time. An empty write over an existing file changes nothing, its modification time included. |
| FileSystem.InPlaceWriteKeepsStaleTail | trans.go:774 | Writing `[9]` over an existing `[1, 2, 3]` leaves `[9, 2, 3]`. |
| FileSystem.WriteTruncating | trans.go:774 | The write with truncation stores exactly the uploaded bytes and changes nothing else. |
| FileSystem.TruncatingWriteStoresUpload | trans.go:774 | After the truncating write, opening the path gives back exactly the written bytes. |
| Html.Escape | trans.go:140-152 | The escaped text has no `<`, `>`, `"` or `'`. Text without special characters is unchanged. |
| Html.UnescapeEscape | trans.go:140-152 | Unescaping the escaped text gives the original back, so the link text loses nothing. |
| Http.Error | trans.go:551 | `http.Error` sets the given status, a body of the message and a newline, a plain-text content type and nosniff, and keeps the other headers. |
| Http.FastResp | trans.go:42-47 | An empty response with the given status, a zero Content-Length, a plain-text type and nosniff. |
| Http.LocalRedirect | trans.go:310-316 | A 301 whose Location is the new path, followed by `?` and the raw query exactly when there is one. No other header changes. |
| Cache.SetLastModified | trans.go:342-354 | Last-Modified is set to the formatted time unless the time is a zero time (`isZeroTime`: Go's zero time or the Unix epoch). Nothing else changes. |
| Cache.TruncateToSecond | trans.go:372 | The truncated time is a whole second and lies within the second before the time. |
| Cache.CheckIfModifiedSince | trans.go:358-377 | No answer unless the request is GET or HEAD with a parseable If-Modified-Since and a known time. Otherwise "not modified" exactly when the time is before the end of the client's second. |
| Cache.TruncationOrder | trans.go:372-375 | Comparing the truncated time with `t` is the same as comparing the time with the end of `t`'s second. |
| Cache.WriteNotModified | trans.go:319-332 | A 304 without Content-Type or Content-Length. Last-Modified is kept exactly when present and no Etag is set. No other header is added or dropped. |
| Cache.NotModifiedIdempotent | trans.go:319-332 | Applying the 304 rewrite to its own headers changes nothing. |
| Listing.LessTransitive | trans.go:215 | The name order is transitive. |
| Listing.LessTotal | trans.go:215 | Any two different names are ordered one way or the other. |
| Listing.SortByName | trans.go:215 | The listing is in ascending name order and is a permutation of the directory's entries. |
| Listing.SizeUnit | trans.go:177-191 | As written: "B" exactly below 1024, "EB" exactly from 1024^5 up, never "PB". Below EB the size is under 1024 of the unit. |
| Listing.FormatFileSize | trans.go:177-191 | The text ends with the unit name. Below one KB the number before "B" parses back to the size. |
| Listing.PebibytesLabelledExbibytes | trans.go:189-190 | As written, a size of 1024^5 is divided by 1024^5 yet labelled EB, a unit 1024 times larger. |
| Listing.CorrectedUnitFitsSize | trans.go:177-191 | With PB restored, every int64 size is at least its unit (or is in bytes) and below 1024 of it. |
| Listing.CorrectedFormatFileSize | trans.go:177-191 | The corrected text ends with the corrected unit name. Below one KB the number parses back to the size. |
| Listing.ListingRows | trans.go:230-260 | One row per entry in name order. Classes alternate starting with "even". The link text unescapes to the entry's name, with a slash for directories. The size ends with the entry's unit. |
| Listing.DirList | trans.go:194-262 | 200 exactly when the directory and the page fragment can be read, else 500 "Error reading directory". A 200 is HTML: fragment, table head, rendered rows, table end. |
| Content.Typed | trans.go:402-422 | A preset Content-Type is kept. Otherwise the extension's type is used, else the sniffed type of the first 512 bytes. Fails exactly when sniffing is needed and the rewind fails. Other headers are kept. |
| Content.Deliver | trans.go:424-526 | 200 exactly for a seekable stream, else 500 "seeker can't seek". Content-Length parses back to the file size and Accept-Ranges is "bytes". The body is the whole file, or empty for HEAD. |
| Content.ServeContent | trans.go:397-527 | Last-Modified unless a zero time, and the content-type rules of `Typed`. 200 exactly when seekable. Content-Length parses to the size. The body is the whole file unless HEAD. |
| Server.ServeFile | trans.go:533-627 | Favicon requests outside the static tree redirect. A failed open gives 500 "500 Internal Server Error" (the single answer of `toHTTPError`). A 200 is for a path in the tree, and a file's 200 carries its bytes. For an opened path: a 301 exactly when a directory lacks its trailing slash, or, with `redirect`, a file has one. Without a redirect, a 304 exactly when the time check says "not modified", with no Content-Type or Content-Length. Otherwise a directory is answered by `DirList` over the directory read at the opened path, with its Last-Modified set, and a file by `ServeContent` with the base name of the opened path, its modification time and its stream. |
| Server.ServeOpened | trans.go:565-623 | A 301 exactly in the redirect cases. A directory's Location is `Base(url) + "/"` and a file's is `"../" + Base(url)`, each followed by the query. Otherwise a 304 exactly when the time check says "not modified", with no Content-Type or Content-Length. Past that, a directory's response is `DirList` over `readDir` of the opened path with Last-Modified set, which is 200 exactly when the directory and the page fragment can be read. A file gets 200 exactly when its stream can seek, and its response is `ServeContent` over the base name of the opened path, its modification time and its stream, so Last-Modified, Content-Type and Content-Length follow `ServeContent`'s contract. |
| Server.DirectoryRedirectAddsSlash | trans.go:582-589 | A directory requested without a trailing slash, with any query, gets a 301 to `Base(url) + "/"` and the query. When the last element is a plain reference, that Location resolves to the same path with the slash added. |
| Server.ServeHttp | trans.go:640-647 | A 200 from the file handler serves a path in the tree that `Dir.Open` would open for the raw request path. On a host whose separator is `/`, the response is exactly serveFile's for the request with a leading slash added and the raw path as the name, so cleaning the path first changes nothing. |
| Server.CleanTwiceOpensSame | trans.go:641-646 | Cleaning the path in the handler before `Dir.Open` cleans it again opens the same path as the raw request path. |
| Server.ServedPathWithinRoot | trans.go:640-647 | Whatever the request path, a served path is in the tree and, under an absolute root, within the cleaned root. |
| Upload.CheckDirHandler | trans.go:661-678 | 200 exactly when `a` has no `..` field and names an existing directory under the share, else an empty 403. |
| Upload.RemoveHyphens | trans.go:698 | The result has no hyphen and keeps exactly the other characters of the input. |
| Upload.RemoveHyphensCount | trans.go:698 | The result is shorter than the input by exactly the number of hyphens in it. |
| Upload.RemoveHyphensAppend | trans.go:698 | Removing hyphens distributes over concatenation, so the other characters keep their order. |
| Upload.RemoveHyphensSkip | trans.go:698 | The first hyphen is dropped, and the text before it is kept as it is. |
| Upload.UuidSuffix | trans.go:697-698 | For the text of a UUID, the suffix is a dot followed by the five groups of hexadecimal digits in order: 33 characters with no further dot or slash. |
| Upload.UploadSuffix | trans.go:692-699 | The suffix is empty exactly when `b` is not "1", else a dot followed by the hyphen-free UUID. |
| Upload.StoredNameWithoutSuffix | trans.go:768-769 | Without the suffix a file keeps its uploaded name. |
| Upload.StoredNameKeepsExtension | trans.go:768-769 | With the suffix, a name that has an extension keeps it. |
| Upload.WritePart | trans.go:774-782 | The write succeeds exactly when the target is writable: not a directory, and existing or with a directory as parent. It changes only the target, which becomes a file. In place, the old bytes are overlaid (`WriteInPlace`), so the file begins with the uploaded bytes, and an empty write keeps the old time. Truncating, it holds exactly the uploaded bytes with the current time. |
| Upload.StoreParts | trans.go:754-785 | The answer is an empty 200 or 500 "eror", and it is 200 exactly when every file of the form opens and every target is writable. Only the targets of the form's files change, and directories never do. A 200 means every file was stored as a regular file. Each target begins with its last upload, and when truncating holds exactly it. |
| Upload.WriteKeepsWritable | trans.go:774-782 | A successful write leaves every path exactly as writable as before, so an earlier file of the form never decides whether a later one can be written. |
| Upload.CanStoreStep | trans.go:754-785 | The whole form can be stored exactly when its first file opens, its target is writable, and the rest can be stored after that write. |
| Upload.Gate | trans.go:683-740 | GET serves the page. A `..` gives 403 "Error current directory". A missing directory gives an empty 200, a 500 without hijacking, or a hijacked raw 500. Otherwise the form is stored. |
| Upload.GateAgreesWithCheckDir | trans.go:661-703 | A non-GET upload goes ahead exactly when `check_dir_handler` approves the same directory. |
| Upload.UploadWith | trans.go:682-797 | Stopped requests change nothing. A missing form drops the connection. Otherwise the answer is an empty 200 or 500 "eror", 200 exactly when every file opens and every target is writable. Only the targets change, and a 200 stores every file, each target beginning with its last upload. |
| Upload.UploadHandler | trans.go:682-797 | The gate's answers change nothing, and a missing form drops the connection. The tree changes only for a non-GET request with an acceptable directory (`check_is_dir` as `IsDir`) and a form, and only at the form's targets. Such a request gets 200 exactly when every file opens and every target is writable, else 500 "eror". A 200 stores every file, each target beginning with the bytes last uploaded to it. |
| Upload.UploadCorrected | trans.go:682-797 | With truncating writes, an accepted request with a form gets 200 exactly when every file opens and every target is writable, else 500 "eror". A 200 leaves each target holding exactly the last bytes uploaded to it. |
| Upload.StoredNameHasNoParent | trans.go:766-769 | A stored name built from a base name and a UUID suffix or none has no `..` element, except for a bare "..". |
| Upload.ParentNameTargetsParent | trans.go:772 | A part named ".." without a suffix is joined to the parent of the upload directory. |
| Upload.TargetStaysInShare | trans.go:702-772 | After the `..` check, a file with any base name except a bare ".." is stored at the share's cleaned elements followed by names only (`filepath.Join` as `JoinPath`). It is beneath the share element by element, and within the cleaned share when that is absolute. |
| Upload.UploadStaysInShare | trans.go:682-797 | In a tree where a directory's parent is a directory, every path that upload changes is beneath the share, whatever the names in the form and `a`. |

## Left out

- `main` (trans.go:801-861): flag parsing, route registration, `http.StripPrefix` and `GetOutboundIP`. These are process setup, not request handling.
- `fmt.Printf` diagnostics: they write to the console and do not affect responses.
- `write_up_part`: the contents of `static/index_part.html` are an `Env` field, `indexPart`. Failing to stat or open it is modelled as that field being None. A copy that fails midway has already sent a 200 with part of the fragment, and the source's `http.Error` then only appends its message (trans.go:219-224). The model does not represent that partial response.
- Library calls are `Env` fields with no model inside:
  - `mime.TypeByExtension`, `http.DetectContentType`, `http.ParseTime`;
  - the HTTP and listing time formats, `url.URL.String`, `%.2f`;
  - `ReadDir`, and `http.ServeFile` of the upload page.
- The UUID generator and the clock are parameters (`uuid`, `now`).
- The commented-out range-request code of `serveContent` (trans.go:435-506) is not compiled in the source and is not modelled.
- Windows hosts: paths are joined and cleaned with `/` only. The host separator appears only in `Dir.Open`'s rejection test.
- Server.ServeFile: `f.Stat()` on an opened handle is assumed to succeed, so its 500 branch (trans.go:556-561) is not modelled.
- Server.ServeFile: requires a non-empty URL path when `redirect` is set, because the source indexes its last byte (trans.go:570). The handler always passes `redirect` as false.
- File permissions are not modelled in the tree, so the permission branch of `mapDirOpenError` passes through without being produced by `OsOpen`. Likewise `os.OpenFile` at trans.go:774 never fails with a permission error in the model: for a read-only target or a read-only directory the source answers 500 "eror", where Upload.WritePart and Upload.Writable report success.
- Newer Go releases make `http.Error` also delete some headers. The model keeps every other header.
- A directory entry whose `Info()` fails makes the source dereference nil (trans.go:240). Entries are modelled as always carrying their size and time.
- Go's `<` on strings compares UTF-8 bytes. On `seq<char>` the model compares code points, which gives the same order.
- Upload.Gate: the transport is reduced to two booleans: whether `ParseForm` under the 1024-byte `MaxBytesReader` succeeds, and whether the writer can be hijacked. An error from `Hijack()` itself (trans.go:730-733) is folded into the hijacked outcome.
- Upload.Gate: the empty 200 after a failed `ParseForm` is modelled as an ordinary empty response. `MaxBytesReader` also asks the server to close the connection ("Connection: close"), which is not modelled.
- Upload.UploadStaysInShare: requires a non-empty shared directory, as does Upload.TargetStaysInShare. `main` guarantees it: the `-shareddir` flag defaults to ".", and an empty value fails `os.Stat`, so `main` prints "!!! a directory path need" and returns before any handler is registered (trans.go:806-816).
- Upload.UploadStaysInShare: part names are taken to be what the multipart library's `FileName` gives, the `path.Base` of the sent name. The multipart library is not part of this model.
- Paths.RedirectResolvesToSlashed: resolution covers a scheme, an authority, an absolute path and a relative path with a query or fragment. Percent-decoding is not modelled, and dot segments are not removed. The lemma excludes last elements that read as a scheme or contain `?` or `#`, because those resolve elsewhere (Paths.SchemeNamedDirectoryLeaves, Paths.QueryNamedDirectoryTruncates).
- Streams.Read: a read never fails with an error other than end-of-file. In the source loop such an error would leave `err != io.EOF` forever with nothing read, and the loop would not stop (trans.go:516-524).
- Streams.CopyLoop: for the same reason, it always ends at end-of-file.
- Listing.ListingRows: sizes use the corrected unit, so a size from 1024^5 to below 1024^6 prints "PB", which trans.go never prints.
- Listing.DirList: the rows it renders use the same corrected unit.
- Symbolic links are not modelled: the tree maps paths to files and directories only. `os.Open` (trans.go:90), `os.Stat` in `check_is_dir` (trans.go:282) and `os.OpenFile` (trans.go:774) follow links, so a link inside the share can serve or overwrite a file outside it. FileSystem.DirOpenConfined, Server.ServedPathWithinRoot and Upload.UploadStaysInShare state containment of path strings, not of the files those paths reach.
- Upload.StoreParts: `r.ParseMultipartForm` and the iteration order of the `m.File` map are given as a sequence of parts. `io.Copy` errors are ignored by the source and not modelled. Each part's bytes are written once from offset 0.
- The deferred `Close` calls and the response-writer plumbing (`Flush`, `WriteHeader` ordering) have no observable effect in the model.

## Findings

| source | as written | input that shows it | evidently intended | confidence | as-written member | corrected member |
|---|---|---|---|---|---|---|
| trans.go:774 | Uploads open the target with `O_WRONLY\|O_CREATE` and no `O_TRUNC`. | Upload a 1-byte file `[9]` over an existing 3-byte file `[1, 2, 3]` of the same name: the stored file is `[9, 2, 3]`. | The stored file holds exactly the uploaded bytes. | high (not executed) | FileSystem.InPlaceWriteKeepsStaleTail | Upload.UploadCorrected |
| trans.go:189-190 | Sizes from 1024^5 up are divided by 1024^5 and labelled "EB"; there is no "PB" branch. | A 1 PiB file (1024^5 bytes) is listed as "1.00EB". | Label "PB" below 1024^6 and "EB" from 1024^6. | high (not executed) | Listing.PebibytesLabelledExbibytes | Listing.CorrectedUnitFitsSize |

The listing uses the corrected size unit. `Upload.UploadHandler` keeps the in-place write as written, and `Upload.UploadCorrected` is the same handler with truncating writes.
