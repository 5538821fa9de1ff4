# webservd core in Dafny

webservd is a small static-file HTTP server. It handles each accepted TCP connection in its own task, and reads at most 1024 bytes from it into a zero-filled buffer. It parses the request line into a method, a canonical file path and a protocol version. Then it answers in one of three ways:

- it returns a file's contents from an in-memory file cache (`HTTP/1.1 200 OK`);
- it returns a bare status line for an error (400, 404 or 501);
- it sends nothing, when the socket read fails.

The file cache holds one entry per absolute path. An entry is created empty by `open`. It is filled from disk the first time it is `read`, and afterwards served from memory. A filesystem watcher evicts an entry when that file is created, written, removed or renamed, so that the next request reloads it.

The model has six modules:

- `Wrappers`: `Option` and `Result`.
- `Config`: the static strings of `src/lib.rs`, and one number:
  - the bind address;
  - the document root `./html/`;
  - the default index `index.html`;
  - the unused 404 page name;
  - the protocol version `HTTP/1.1`;
  - `BUF_SIZE`, a name for the length 1024 of the array literal that `handle_connection` reads into (src/lib.rs:46). The source has no constant for it.
- `Strings`: the slice of Rust's `str` behaviour the parser relies on:
  - `split` and `split_once`;
  - `trim` and `contains`;
  - `replace`;
  - decimal rendering of a number.
- `Http`: the request parser of `src/http/mod.rs`:
  - status codes;
  - `HttpRequest::new`;
  - `parse` and `parse_get`;
  - the method stubs.
- `FileStore`: `src/filestore/mod.rs`:
  - the `FileEntry` and `FileCache` classes;
  - the pure functions that specify them;
  - the watcher's event dispatch.
- `Server`: `handle_connection` of `src/lib.rs` and end-to-end properties of the whole pipeline.

The outside world enters as parameters:

- The disk is a `FileSystem`, a map from absolute path string to file contents.
- `Path::canonicalize` is a `Canonicalizer`. It maps a path string to `None`, meaning the file does not exist, or to a canonical list of path components. `Path::starts_with` is the prefix test on such lists.
- `SystemTime::now()` is a `Time` argument.
- The bytes read from the socket are an `Option`: `None` is a read error, and `Some(data)` holds at most 1024 characters.

The classes keep the source's shape:

- `FileEntry` has the fields `contents` and `lastAccessed`, which `Update` assigns.
- `FileCache` has a `store` map of `FileEntry` objects, which `Open` and `InvalidateEntry` reassign. `Read` updates one entry object in place.

Each method is proved against a pure function of the old state: `GetOf`, `UpdateOf`, `OpenOf`, `LookupOf`, `ReadOf`, `InvalidateOf` and `Respond`. The lemmas state what those functions guarantee.

Notes on what the code does, which the model follows:

- `GET /../secret` answers 400 only when the target exists outside the document root. When it does not exist, `canonicalize` fails and the code answers 404. `TraversalScenario` assumes the file exists.
- The version in a parsed request is always the constant `HTTP/1.1`, whatever version the client sent.
- The header map is built from every kept line, including the request line, and a later line with the same key replaces an earlier one.

## Model

| member | source | states |
|---|---|---|
| Strings.IndexFrom | src/http/mod.rs:101 | The result is the leftmost occurrence of the pattern at or after the start position; `None` means there is no occurrence there. |
| Strings.Split | src/http/mod.rs:88 | Like `str::split`: there is at least one piece, the pieces joined with the separator give back the input, and no piece contains the separator. |
| Strings.SplitFirst | src/http/mod.rs:106-112 | If the text before a separator does not contain the separator's first character, splitting yields that text first and then the split of the remainder. |
| Strings.SplitWhole | src/http/mod.rs:106-112 | A text without the separator's first character splits into itself alone. |
| Strings.ReplaceAbsent | src/http/mod.rs:78 | `replace` leaves a string unchanged when the pattern does not occur in it. |
| Strings.Replace | src/http/mod.rs:78 | Replacing a pattern by itself leaves any string unchanged. Together with `ReplaceAbsent`, this gives the identity cases of `str::replace`; `ReplaceFirst` gives the rewriting case for every string that contains the pattern, by cutting it at its first occurrence. |
| Strings.ReplaceFirst | src/http/mod.rs:78 | When no occurrence of the pattern starts inside `a`, so that the one after `a` is the first, replacing in `a + pat + b` keeps `a`, puts `rep` where the pattern was, and carries on replacing in `b`. |
| Strings.JoinedPart | src/http/mod.rs:88 | Every character of a split piece occurs in the joined text. |
| Strings.FirstChar | src/http/mod.rs:101 | The cut `split_once(' ')` makes: if there is no match, the character is absent; otherwise the match is the first occurrence and the string is prefix + char + suffix. |
| Strings.FreeBefore | src/http/mod.rs:101 | If no occurrence starts before position i, the prefix of length i does not contain the pattern. |
| Strings.OccursAtChar | src/http/mod.rs:101 | A one-character pattern occurs at i exactly when that index holds the character. |
| Strings.NoCharOccurrence | src/http/mod.rs:101 | A character that occurs at no index is not in the string. |
| Strings.FirstCharAt | src/http/mod.rs:101 | A first occurrence splits the string into a prefix free of the character, the character, and the rest. |
| Strings.CountAppend | src/http/mod.rs:108 | Occurrence counts add up over concatenation. |
| Strings.CountAbsent | src/http/mod.rs:108 | An absent character has count zero. |
| Strings.SplitCharCount | src/http/mod.rs:108-118 | Splitting on a single character gives one more piece than it has occurrences, so the request line has fewer than 3 tokens exactly when it has fewer than 2 spaces. |
| Strings.TrimStart | src/http/mod.rs:91 | The result is no longer than the input, does not start with whitespace, and keeps every non-whitespace character of the input and no other. |
| Strings.TrimEnd | src/http/mod.rs:91 | The result is no longer than the input, does not end with whitespace, and keeps the same non-whitespace characters. |
| Strings.Trim | src/http/mod.rs:91 | Neither end of the result is whitespace, and non-whitespace membership is preserved, so a NUL test after `trim` sees the same NULs as before. |
| Strings.NatToString | src/lib.rs:101-107 | The decimal rendering of a status number has at least one digit, only digits, and no leading zero. |
| Strings.DecimalRoundTrip | src/lib.rs:101-107 | Reading the decimal rendering back gives the number. |
| Strings.NatToStringLength3 | src/lib.rs:101-107 | Every three-digit status number renders as exactly three characters. |
| Http.HttpStatusCode.Value | src/http/mod.rs:30-42 | Every status number lies in the HTTP range 100..599. |
| Http.StatusNumbersDistinct | src/http/mod.rs:30-42 | Different statuses carry different numbers. |
| Http.NewRequest | src/http/mod.rs:69-83 | The method, file, version and headers are stored as given. The uri is the path string itself when the document root text does not occur in it; `NewRequestStripsRoot` states the removal when it does, cutting the path string at the first occurrence. |
| Http.NewRequestStripsRoot | src/http/mod.rs:78 | A path string `a + "./html/" + b` whose first occurrence of `./html/` is the one after `a` gets the uri `a` followed by `b` with every occurrence of `./html/` removed. |
| Http.DottedPathUri | src/http/mod.rs:78 | The path string `/a.b/c./html/d` gets the uri `/a.b/cd`: a `.` earlier in the path does not stop the removal. |
| Http.NoDotSlash | src/http/mod.rs:78 | In the `/`-joined string of components that contain no `/` and do not end in `.`, no `.` is immediately followed by `/`. |
| Http.PlainPathUri | src/http/mod.rs:78 | For a canonical path of such components, the uri equals the whole path string: `./html/` never occurs in it. |
| Http.DropPadded | src/http/mod.rs:88-95 | The filter keeps only lines free of NUL, taken from the input. It keeps every such line, and keeps the first line when that line is NUL-free. The order is given by `DropPaddedAppend` and `DropPaddedOne`. |
| Http.DropPaddedAppend | src/http/mod.rs:88-95 | Filtering a concatenation is the concatenation of the filtered parts, so kept lines stay in their original order. |
| Http.DropPaddedOne | src/http/mod.rs:89-94 | A single line is kept exactly when it contains no NUL, which `trim` does not change. |
| Http.DropPaddedClean | src/http/mod.rs:88-95 | Lines without NUL padding are all kept, unchanged and in order. |
| Http.KeptLines | src/http/mod.rs:88-95 | No kept line contains NUL or CRLF. When the request has no NUL, the kept lines joined with CRLF give back the request. |
| Http.HeaderPair | src/http/mod.rs:100-103 | A line with a space is cut at its first space into key and value. A line without one gives `("none", "none")`. |
| Http.Collect | src/http/mod.rs:98-104 | Every key of the pair list is in the collected map. |
| Http.CollectSource | src/http/mod.rs:98-104 | Every entry of the collected map comes from a pair with that key and value, and no later pair has the same key. The last pair for a key wins. |
| Http.HeaderMap | src/http/mod.rs:98-104 | Every kept line's key is a header name. |
| Http.HeaderMapSource | src/http/mod.rs:98-104 | Every header entry comes from the last kept line with that key. |
| Http.RequestLine | src/http/mod.rs:106-112 | There are no tokens exactly when no line survives the filter. Otherwise the tokens joined with single spaces give back the first kept line, and no token contains a space. |
| Http.ParseRequestLine | src/http/mod.rs:116-131 | Fewer than three tokens give 400. Only a `GET` line can succeed. Every failure is 400, 404 or 501. |
| Http.MethodOf | src/http/mod.rs:121-130 | A recognised method token is exactly that method's name. |
| Http.MethodNameRoundTrip | src/http/mod.rs:121-130 | Each of the eight method names is recognised as its method. |
| Http.Candidate | src/http/mod.rs:153-164 | `/` becomes `index.html`. A longer target starting with `/` loses exactly that slash. Anything else is kept. |
| Http.RootIsDefaultIndex | src/http/mod.rs:153-164 | `/` and `/index.html` name the same candidate file. |
| Http.Resolve | src/http/mod.rs:166-186 | The answer is 404 if and only if the path does not canonicalise. It is 400 if and only if the path canonicalises outside the canonical document root. It succeeds if and only if the path canonicalises inside the root, and then it is a GET of that canonical file with version `HTTP/1.1` and no headers. No other error occurs. |
| Http.ParseGet | src/http/mod.rs:149-188 | The token vector is rewritten in place at index 1 only, and the result is `Resolve` of the rewritten target. |
| Http.ParseRequest | src/http/mod.rs:87-147 | A parse succeeds if and only if the request line has at least three tokens, the first is `GET`, and the second token's candidate resolves. The file is then the canonical path of that candidate, inside the document root, with version `HTTP/1.1` and headers equal to the map of the kept lines. A failure is 400, 404 or 501. |
| Http.Parse | src/http/mod.rs:87-147 | The method builds the token vector as an array, dispatches through `ParseGet`, and returns exactly `ParseRequest`. |
| Http.Dispatch | src/http/mod.rs:112-131 | The method copies the tokens into an array and dispatches on the method token, through `ParseGet` for GET. It returns exactly `ParseRequestLine` of the tokens. |
| Http.ParseAgreesWithRequestLine | src/http/mod.rs:106-147 | Parsing a request agrees with dispatching its request-line tokens: the same failure status, or the same method and file. |
| Http.ShortRequestLine | src/http/mod.rs:106-118 | The request line has fewer than three tokens if and only if it has fewer than two spaces (or no line survives the filter), and then the answer is 400. |
| Http.MethodDispatch | src/http/mod.rs:121-131 | An unknown method gives 400. A known method other than GET gives 501 (the stubs at src/http/mod.rs:190-216). GET gives `Resolve` of the candidate. Only GET can succeed. |
| Http.FirstKeptLine | src/http/mod.rs:88-112 | A request line free of CR and NUL is the first kept line, and its space-split is the token vector. |
| Http.ThreeTokens | src/http/mod.rs:106-112 | Three space-free words joined by single spaces split back into those three words. |
| Http.GetLine | src/http/mod.rs:106-131 | A `GET target version` line parses as `Resolve` of the target's candidate. |
| Http.RootRequestIsIndexRequest | src/http/mod.rs:153-164 | `GET /` and `GET /index.html` parse to the same result. |
| FileStore.GetOf | src/filestore/mod.rs:35-51 | `get` never reports `NoFileEntry`, and a success returns exactly the stored contents. |
| FileStore.GetCases | src/filestore/mod.rs:35-51 | `get` reports `NeedsUpdate` exactly when there is no access marker. It reports `EmptyFile` exactly when the marker is set without contents. It succeeds exactly when both are set, returning the contents, and never reports `NoFileEntry`. |
| FileStore.UpdateOf | src/filestore/mod.rs:53-71 | After `update` the entry is consistent and stamped with now. Filled contents are kept, and empty contents are read from disk. |
| FileStore.UnpopulatedNeedsUpdate | src/filestore/mod.rs:27-51 | A new entry satisfies the entry invariant and its `get` fails with `NeedsUpdate`. |
| FileStore.UpdateFillsOnce | src/filestore/mod.rs:53-71 | After `update` the entry is consistent and stamped with now. An empty entry then yields the file's disk contents. A filled entry keeps its old contents, even if the disk changed. |
| FileStore.ConsistentGet | src/filestore/mod.rs:35-51 | For a consistent entry, `get` never reports `EmptyFile`. It reports `NeedsUpdate` exactly for the unpopulated entry, and succeeds exactly when contents are present. |
| FileStore.OpenOf | src/filestore/mod.rs:102-107 | `open` adds exactly the path to the key set and keeps every existing entry; if every entry was consistent, every entry still is. |
| FileStore.LookupOf | src/filestore/mod.rs:131-164 | `lookup` reports `NoFileEntry` exactly when the path has no entry. A success returns that entry's stored contents. |
| FileStore.ReadOf | src/filestore/mod.rs:108-130 | `read` keeps the key set and every other entry. On a consistent entry, the entry afterwards holds exactly the returned text. |
| FileStore.InvalidateOf | src/filestore/mod.rs:166-172 | Invalidation removes exactly the path's key and keeps every other entry; if every entry was consistent, every entry still is. |
| FileStore.FirstReadLoads | src/filestore/mod.rs:102-130 | Opening and reading a path that has no entry returns the disk contents, and leaves an entry holding them stamped with now. |
| FileStore.OpenEnsuresEntry | src/filestore/mod.rs:102-107 | After `open` the path has an entry. An existing entry is kept, a new one is unpopulated, other keys are untouched, and opening twice is the same as opening once. |
| FileStore.ReadCases | src/filestore/mod.rs:108-130 | A read without an entry gives `""` and changes nothing. A populated entry gives its cached contents and changes nothing. An unpopulated entry is filled from disk and its contents are returned. |
| FileStore.ReadKeepsConsistent | src/filestore/mod.rs:108-130 | `read` keeps every entry consistent, keeps the same key set, and leaves the read path populated. |
| FileStore.OpenThenRead | src/filestore/mod.rs:102-130 | After `open`, `read` is allowed and returns the cached contents if the entry was populated, else the disk contents. The entry stays, and the cache stays consistent. |
| FileStore.ReadTwiceSame | src/filestore/mod.rs:108-130 | A second read returns what the first returned, even if the disk changed in between. |
| FileStore.ReadAfterInvalidate | src/filestore/mod.rs:102-172 | After invalidation, open and read return the current disk contents. |
| FileStore.InvalidateRemovesKey | src/filestore/mod.rs:166-172 | Invalidation removes exactly the given key, leaves other entries unchanged, and is idempotent. |
| FileStore.InvalidationTarget | src/filestore/mod.rs:180-210 | Create, Write, Remove and Rename events (the first path, for a rename) invalidate their path. Every other event invalidates nothing. |
| FileStore.FileEntry.constructor | src/filestore/mod.rs:27-33 | A new entry records its path and is unpopulated. |
| FileStore.FileEntry.Get | src/filestore/mod.rs:35-51 | `get` returns `GetOf` of the entry's fields and changes nothing. |
| FileStore.FileEntry.Update | src/filestore/mod.rs:53-71 | The fields after `update` are `UpdateOf` of the fields before. |
| FileStore.FileCache.constructor | src/filestore/mod.rs:84-100 | The cache starts with an empty store. |
| FileStore.FileCache.Open | src/filestore/mod.rs:102-107 | The store gains an entry for the path only if it had none, and its contents become `OpenOf` of the old contents. |
| FileStore.FileCache.Lookup | src/filestore/mod.rs:131-164 | `lookup` returns `NoFileEntry` without an entry, else the entry's `get`. |
| FileStore.FileCache.Read | src/filestore/mod.rs:108-130 | The returned string and the new contents are `ReadOf` of the old contents. No entry is added or replaced. |
| FileStore.FileCache.InvalidateEntry | src/filestore/mod.rs:166-172 | The store loses the key. The removed key and entry object are returned if present, else `None`. |
| FileStore.FileCache.HandleEvent | src/filestore/mod.rs:180-210 | One pass of the watcher loop: the cache contents become `InvalidateOf` of the event's target, or stay unchanged. |
| Server.StatusHead | src/lib.rs:101-107 | A status head starts with `HTTP/1.1` and a space, and ends with CRLF CRLF. |
| Server.OkResponse | src/lib.rs:83-89 | A success response carries the number 200 at characters 9..12 and ends with the body. |
| Server.ErrorResponse | src/lib.rs:101-107 | An error response carries the error's own number at characters 9..12 and ends with CRLF CRLF, with no body. |
| Server.OkResponseText | src/lib.rs:83-89 | The success response is `HTTP/1.1 200 OK`, CRLF CRLF, then the body, which starts at character 19. |
| Server.BadRequestText | src/lib.rs:101-107 | The 400 response is `HTTP/1.1 400 Bad request` followed by CRLF CRLF. |
| Server.NotFoundText | src/lib.rs:101-107 | The 404 response is `HTTP/1.1 404 Not found` followed by CRLF CRLF. |
| Server.NotImplementedText | src/lib.rs:101-107 | The 501 response is `HTTP/1.1 501 Not implemented` followed by CRLF CRLF. |
| Server.CodeNumerals | src/lib.rs:101-107 | The status numbers 200, 400, 404 and 501 render as their three digits. |
| Server.HeadNumeral | src/lib.rs:101-107 | For any three-digit number and reason, characters 9..12 of the formatted status line read back as the number. |
| Server.StatusHeadCode | src/lib.rs:101-107 | Characters 9..12 of every status head read back as that status's number. |
| Server.ErrorResponseInjective | src/lib.rs:101-107 | Different error statuses produce different responses. |
| Server.OkResponseIsNotError | src/lib.rs:83-107 | No success response, whatever the body, equals an error response. |
| Server.Buffer | src/lib.rs:46-60 | The buffer is 1024 characters: the received data, then NUL padding. |
| Server.ReadIntoBuffer | src/lib.rs:46-60 | The method fills a fresh array equal to `Buffer` of the received data. |
| Server.Serve | src/lib.rs:68-109 | Handling a parse outcome never evicts an entry. An error answers and leaves the cache unchanged. Nothing is written exactly for a parsed non-GET. A GET adds exactly its file's key. |
| Server.Respond | src/lib.rs:45-117 | Handling a connection never evicts a cache entry. A failed read writes nothing and leaves the cache unchanged. |
| Server.ServeRequest | src/lib.rs:68-109 | A GET opens and reads the file and answers 200 with the read contents. A parse error answers with the error's status line. Other methods answer nothing. The cache contents follow `Serve`. |
| Server.ReceiveRequest | src/lib.rs:46-66 | The method reads into the zeroed buffer and parses the whole buffer. The result is `ParseRequest` of `Buffer` of the received data. |
| Server.HandleConnection | src/lib.rs:45-117 | The response and the new cache contents are exactly `Respond` of the received data and the old cache contents. |
| Server.SilentOnlyOnReadError | src/lib.rs:50-109 | A connection gets no response if and only if the read failed, and a failed read leaves the cache unchanged. |
| Server.GetServesFile | src/lib.rs:68-91 | A parsed GET is answered 200 with the cached contents if present, else the file's disk contents. The file then has an entry, and the cache stays consistent. |
| Server.ErrorServesHead | src/lib.rs:101-109 | A parse error is 400, 404 or 501. It is answered by exactly that status line and leaves the cache unchanged. |
| Server.ServeTwiceSame | src/lib.rs:77-91 | Serving the same parsed request twice gives the same response, even if the disk changed. |
| Server.RespondTwiceSame | src/lib.rs:62-91 | The same request bytes get the same response twice, even if the disk changed in between without a watcher event. |
| Server.BufferedRequestLine | src/lib.rs:46-66 | Once the request is placed in the NUL-padded buffer, its first line's space-split is the token vector. |
| Server.ParsedByRequestLine | src/lib.rs:62-66 | Parsing a buffered `method target version` request agrees with dispatching its three tokens, in status, method and file. |
| Server.RespondByRequestLine | src/lib.rs:62-109 | A buffered `method target version` request is handled exactly as its three tokens are dispatched. |
| Server.RootServedAsIndex | src/lib.rs:62-91 | `GET /` and `GET /index.html` get the same response and the same cache contents. |
| Server.ScenarioWords | src/lib.rs:62-109 | The request tokens used in the scenarios contain no space, CR or NUL. |
| Server.IndexScenario | src/lib.rs:62-91 | With `index.html` holding `hi`, `GET / HTTP/1.1` on an empty cache answers `HTTP/1.1 200 OK` CRLF CRLF `hi` and caches `hi` for that file. |
| Server.MissingScenario | src/lib.rs:62-109 | `GET /missing.html` for an absent file answers 404 and leaves the cache unchanged. |
| Server.TraversalScenario | src/lib.rs:62-109 | `GET /../secret` for an existing file outside the document root answers 400. |
| Server.UnknownMethodScenario | src/lib.rs:62-109 | `BOGUS / HTTP/1.1` answers 400. |
| Server.PostScenario | src/lib.rs:62-109 | `POST / HTTP/1.1` answers 501 through the `parse_post` stub. |

## Left out

- The accept loop `run` (src/lib.rs:29-43) is not modelled: the `#[tokio::main]` runtime, binding the listener to `BIND_ADDR`, forcing the `FILECACHE` initialisation, and spawning a task per accepted connection.
- Writing and flushing the socket (src/lib.rs:90-91 and 108-109) is not modelled. `HandleConnection` returns the response text that would be written; the `unwrap` on a failed write is not captured.
- `src/main.rs` is not part of this model. It only parses the command line, sets `RUST_LOG` and initialises the logger before calling `run`.
- Http.Parse: like every parser and server member, it requires `canon(DOC_ROOT).Some?`, that is, a document root that exists. The source unwraps the canonical document root (src/http/mod.rs:176), but only after the target itself has canonicalised. Without `./html` no `./html/`-prefixed target canonicalises, so every GET answers 404 and no request reaches that `unwrap`; a non-GET never canonicalises anything. The model does not cover a missing document root.
- Http.NewRequest: the `uri` field is not used by the server, which reads only `req_uri.file` (src/lib.rs:78-79). `Http.PlainPathUri` shows that for a canonical path whose components contain no `/` and do not end in `.`, the root string `./html/` never occurs, so `uri` is the whole absolute path rather than a path relative to the document root.
- Concurrency is not modelled: the store mutex, the per-entry `RwLock`, the `Arc` sharing, and `block_in_place`. Each operation runs as one atomic step, and interleavings between connections and the watcher thread are not captured.
- FileCache.constructor: the watcher setup is not modelled. That covers creating the debounced watcher and its channel, spawning the thread that runs `notify_loop`, and the receive-error arm of the loop. `HandleEvent` models one iteration of the loop's event match.
- The process-wide lazily initialised `FILECACHE` global is not modelled. The cache is an explicit argument.
- FileStore.FileEntry.Update: the file is read through a path-keyed `FileSystem`, not an open file handle. A file replaced between `open` and the first `read` is seen with its new contents. The shared-container replacement inside `update` is not observable in a sequential model.
- FileStore.FileCache.Open: requires the file to exist, because `FileEntry::new` panics (`unwrap`) when `File::open` fails. Server.HandleConnection inherits this through `Acceptable`. A file deleted between `canonicalize` and `open` is not modelled.
- Server.HandleConnection: through `Acceptable`, it requires a parsed GET to name an entry of the `FileSystem` map, that is, a readable UTF-8 regular file. Some requests parse successfully but name something else, and the model does not cover them. Examples are an empty target (`GET  HTTP/1.1`, two spaces), which resolves to the document root itself, and `GET /.` or any other target naming a directory. A file whose bytes are not UTF-8 is excluded in the same way. On these targets the source's `File::open` succeeds, but `read_to_string(..).unwrap()` in `update` (src/filestore/mod.rs:65) panics. The panic happens inside `read` while the store mutex is held (src/filestore/mod.rs:114-121). That poisons the mutex, so every later `open`, `lookup` and `invalidate_entry` in the process panics too. The model has no panic or poisoned state, so it promises nothing for such requests.
- Server.HandleConnection: the lossy UTF-8 decoding of the byte buffer is taken as the identity on characters. The socket data arrives as characters, one per byte. Multi-byte sequences and replacement characters are not modelled.
- Path canonicalisation, symbolic links and the filesystem's path syntax are reduced to the `Canonicalizer` parameter. Path strings join components with `/`, and `to_str().unwrap()` on non-UTF-8 paths is not modelled.
- `SystemTime::now()` is the `now` parameter. No monotonicity is assumed.
- Logging (`info!`, `debug!`) is not modelled, nor the `peer_addr().unwrap()` calls used only in log lines.
- `BIND_ADDR` and the unused `NOTFOUND_PAGE` are declared in `Config` but drive nothing. A missing file answers with a bare 404 status line, not with the 404 page.
- The seven stub parsers (`parse_post` … `parse_option`) behave identically, so `ParseRequestLine` models them as one branch returning 501.
