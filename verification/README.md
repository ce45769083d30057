# krabby request dispatch, in Dafny

krabby is a scriptable HTTP/WebSocket application server. A directory of
Lua scripts is loaded into a `script_engine`. While they run, the scripts
call `Get`, `Post` and `Mount` to fill a per-method routing table and a
list of static mountpoints. The `server` event handlers then answer each
request from that state.

This project models the core of that program as pure functions over
immutable values:

- the `router`: per-method ordered route tables, first match wins, and
  mandatory query fields are checked before the handler runs;
- the `mountpoint`: prefix test, path stripping, MIME type by extension,
  and serving a file or a 404;
- the `script_engine`: the three script callbacks, the depth-first
  `load_extensions` traversal that stops at the first failure, `reload`,
  and the `handle_mountpoint` / `handle_route` lookups;
- the `server` event handlers for requests, WebSocket messages and
  disconnects, with the JSON, HTML and text response helpers;
- `singleton<T>` registration and the `log` level filter with its
  prefixes;
- the string helpers of `util.hpp`: `escape_html`, `xor_sha1_key`,
  `string_to_hex`, `ltrim`/`rtrim`/`trim`, `strlower` and `split_n`.

Things outside the model become values or parameters:

- A regular expression is a `Router.Regex` value. It holds whether a
  pattern compiles and the groups of a full match, where group 0 is the
  whole path.
- The file system is a map from path to bytes. An absent path is a read
  that throws.
- A Lua script is the sequence of callback calls it makes, possibly ending
  in a runtime error.
- A client write is a `Types.Write` value.
- A route handler is an opaque `Router.Handler` id.

Exceptions become `Result`/`Option` values or outcome constructors.

Files:

- `wrappers.dfy`: `Option` and `Result`.
- `types.dfy`: bytes, the key/value map and the write records.
- `lexical.dfy`: the `std::set<std::string>` order.
- `util.dfy`, `log.dfy`, `singleton.dfy`, `paths.dfy` (the
  `std::filesystem` path operations used by the core), `router.dfy`,
  `mountpoint.dfy`, `script.dfy`, `server.dfy`.

### Behaviour worth knowing

- **`reload` clears routes in place and keeps mountpoints.** The
  scripts are then loaded into the same engine. A script that fails
  leaves everything registered before it in place (`Script.NoRollback`).
  Mountpoints pile up with every reload (`Script.ReloadTwice`).
- **The request handler asks only the routes.** Mountpoints are never
  consulted for a request, so a path that matches both a mount and a route
  is served by the route (`Server.OnRequestIgnoresMounts`).
- **Extension matching is case-sensitive.** The table has exactly the
  eight entries `html`, `htm`, `js`, `mjs`, `css`, `png`, `jpg` and `jpeg`
  (`Mountpoint.ExtensionCaseSensitive`).
- **Of the registration functions, scripts get only `Get`, `Post` and
  `Mount`.** The router's `delet`, `put` and `patch` have no binding.
- **The missing-field exception escapes the request handler.** It is
  not turned into a response (`Server.OnRequest`, `Server.Effect.Threw`).
- **Group 0 is the whole matched path.** The capture groups follow it in
  the groups a handler receives. This is a property of `std::regex`,
  assumed as `Router.WellFormed`; krabby passes the match results on
  unchanged (`Router.GroupsStartWithPath`).
- **Nothing adds to `connections_`.** Text WebSocket messages are
  therefore never answered (`Server.NoFrameEverSent`).
- **The two overloads of each router wrapper are one Dafny function.**
  The C++ code has a handler-first overload whose fields default to the
  empty set, and a fields-first overload. Each wrapper is one function
  with a defaulted `mandatory` parameter, and named arguments cover both
  orders, so the overloads agree by construction.

## Model

| member | source | states |
|---|---|---|
| Lexical.Least | src/router.cpp:74-78 | the element of a non-empty field set that `std::set` visits first: a member of the set and not greater than any other under the byte-wise string order |
| Lexical.StrLessTotal | src/router.cpp:74-78 | the `std::string` order used by `std::set` relates any two distinct strings one way or the other |
| Lexical.StrLessTransitive | src/router.cpp:74-78 | the order is transitive, so the first-visited element is well defined |
| Util.EscapeHtml | include/util.hpp:28-42 | a one-character input gives exactly that character's replacement; each escapable character adds four characters; a string with none is returned unchanged; the result contains none of `< > % : ' "` |
| Util.EscapeHtmlAppend | include/util.hpp:34-39 | the input is processed character by character: escaping a concatenation is the concatenation of the escaped parts, which with the one-character case fixes every output |
| Util.EscapeHtmlRoundTrip | include/util.hpp:28-42 | decoding the numeric entities of the output gives back the input exactly, so the escaping loses nothing |
| Util.Decimal | include/util.hpp:36 | `fmt::format("{}")` of a non-negative `int`: a non-empty string of digits that spells exactly n, with no leading zero unless n is 0 |
| Util.EscapeChar | include/util.hpp:35-38 | an escapable character, whose code lies between 34 and 62, becomes `&`, `#`, its two decimal digits and `;`; any other character is copied as it is |
| Util.XorSha1Key | include/util.hpp:44-56 | the 64-byte block: byte i is key[i] XOR v for the first min(\|key\|,64) bytes and v after them, which is the key truncated or zero-padded to 64 bytes and then XOR-ed |
| Util.PaddedKey | include/util.hpp:47-48 | the HMAC key block is always exactly 64 bytes long |
| Util.XorAllInvolution | include/util.hpp:44-56 | XOR-ing the padded key twice with the same pad value restores the padded key |
| Util.StringToHex | include/util.hpp:69-81 | twice the input length, lower-case hex digits only, and byte i becomes its high nibble digit then its low nibble digit |
| Util.HexRoundTrip | include/util.hpp:69-81 | parsing the hex output two digits at a time gives back the input bytes |
| Util.SkipSpace | include/util.hpp:105 | `find_if(!isspace)` from a position: everything skipped is white space and the position found (or the end) holds a non-space |
| Util.SkipSpaceBack | include/util.hpp:110 | the reverse `find_if(!isspace)` as a `base()` position: everything after it is white space and the character before it is not |
| Util.LTrim | include/util.hpp:103-106 | the result is a suffix of the input, what was removed is all white space, and the result is empty or starts with a non-space |
| Util.RTrim | include/util.hpp:108-111 | the result is a prefix of the input, what was removed is all white space, and the result is empty or ends with a non-space |
| Util.Trim | include/util.hpp:113-117 | the result is the slice between the leading and trailing white space, with non-space characters at both ends |
| Util.TrimIdempotent | include/util.hpp:113-117 | trimming a trimmed string changes nothing |
| Util.StrLower | include/util.hpp:119-122 | same length, no upper-case ASCII letter left, characters that were not upper case are untouched, and each character lowers to what the input's lowers to |
| Util.StrLowerIdempotent | include/util.hpp:119-122 | lowering twice is lowering once |
| Util.FindFirstNotDelim | include/util.hpp:130 | `find_first_not_of(" \t", pos)`: everything skipped is a delimiter, and the found position (or the end, for `npos`) holds a non-delimiter |
| Util.FindFirstDelim | include/util.hpp:132 | `find_first_of(" \t", pos)`: everything skipped is not a delimiter, and the found position (or the end) holds a delimiter |
| Util.SizeLimit | include/util.hpp:124-130 | the `int` count converts to `size_t` in the loop test: a non-negative count is kept, a negative one becomes a limit of at least 2^64 - 2^31 |
| Util.SplitN | include/util.hpp:124-139 | `out` is kept as a prefix, every appended element is non-empty and starts with a non-delimiter, all but the last appended contain no delimiter, at most max(\|out\|,n)+1 elements result, and an all-blank input appends nothing |
| Util.SplitNWithinLimit | include/util.hpp:130-134 | measured against the space/tab word list: while the limit is not reached, every word becomes its own element, in order |
| Util.SplitNOverflow | include/util.hpp:124-139 | past the limit, the first words fill `out` up to n entries and one last element holds the rest of the line verbatim: a suffix of the input starting at the next word, whose words are exactly the remaining ones |
| Util.SplitNNegativeSplitsAll | include/util.hpp:124-139 | a negative count splits the whole line into its words |
| Log.Rank | include/log.hpp:14 | the `int8_t` value of a level is its position in the declaration: fatal 0, warning 1, info 2, debug 3, trace 4 |
| Log.RankInjective | include/log.hpp:14 | distinct levels have distinct values |
| Log.LevelsOrdered | include/log.hpp:14 | fatal < warning < info < debug < trace, the order the level filter compares by |
| Log.Initial | include/log.hpp:18 | a fresh logger is disabled at level info |
| Log.Enable | include/log.hpp:26 | sets the enable flag and leaves the level alone |
| Log.SetLevel | include/log.hpp:28 | sets the level and leaves the enable flag alone |
| Log.PrefixFor | include/log.hpp:76-91 | every level has a three-character tag |
| Log.PrefixRoundTrip | include/log.hpp:76-91 | the tag identifies the level, so no two levels share one |
| Log.Emitted | include/log.hpp:31-74 | a call prints exactly when it reaches `dump` (always for fatal, otherwise only in an `ENABLE_LOG` build), logging is enabled and the configured level is at least as verbose; what it prints is tagged with the call's own level |
| Log.InitialIsSilent | include/log.hpp:18-74 | nothing is printed before `enable(true)` |
| Log.EmitsMonotone | include/log.hpp:66-74 | raising the verbosity never hides a message that was printed |
| Log.FatalAlwaysEmitted | include/log.hpp:55-74 | once enabled, `fatal` prints at every level and in every build, tagged `X_X` |
| Singleton.Empty | include/singleton.hpp:23-24 | every `instance_` starts out null |
| Singleton.Construct | include/singleton.hpp:13-18 | the base `T` is built first and its exception, if any, escapes unchanged; otherwise a construction throws exactly when the type already has an instance, with the fixed message; a throwing construction leaves the registry unchanged, and a successful one makes the new object the instance |
| Singleton.BaseFailureRegistersNothing | include/singleton.hpp:14-17 | when `T`'s own constructor throws, its exception is the one thrown and no type's instance changes, even if this type already had one |
| Singleton.Destroy | include/singleton.hpp:19 | the destructor clears its type's pointer and no other |
| Singleton.Instance | include/singleton.hpp:20 | the registered object, or none where the C++ code would dereference a null pointer |
| Singleton.ConstructRegisters | include/singleton.hpp:13-20 | after a successful construction `instance()` returns that object |
| Singleton.SecondConstructionFails | include/singleton.hpp:14-16 | a second construction of the same type throws, with the fixed message unless its base threw first, and the first object stays the instance |
| Singleton.DestroyThenConstruct | include/singleton.hpp:19 | after destruction the type can be constructed again |
| Singleton.TypesIndependent | include/singleton.hpp:8-24 | each instantiation has its own pointer: constructing or destroying one type never changes another type's instance |
| Paths.Join | src/script.cpp:125 | `path_ / fs_path`: an absolute right side replaces the base; an empty base gives the right side; a base ending in `/` is followed directly by the right side; any other base gets exactly one `/` inserted; the result is absolute exactly when either side is |
| Paths.FindLast | include/mountpoint.hpp:36 | `find_last_of`: the position of the last occurrence, or -1 for `npos` when there is none |
| Paths.Extension | src/script.cpp:134 | `path::extension()`: empty exactly for `.`, `..` and names with no dot after the first character; otherwise a dot followed by the text after the last dot, taken from the name |
| Router.TableOf | include/router.hpp:46 | a method with no table has an empty one; a method with a table has that table |
| Router.AddRoute | src/router.cpp:53-64 | registration succeeds exactly when the pattern compiles, and fails with that pattern's error otherwise; on success the entry is appended to its method's table and every other table is unchanged |
| Router.Get | src/router.cpp:8-15 | `get` is `add_route("GET", …)` with the mandatory fields defaulting to none |
| Router.Post | src/router.cpp:17-24 | `post` is `add_route("POST", …)` |
| Router.Delete | src/router.cpp:26-33 | `delet` is `add_route("DELETE", …)` |
| Router.Put | src/router.cpp:35-42 | `put` is `add_route("PUT", …)` |
| Router.Patch | src/router.cpp:44-51 | `patch` is `add_route("PATCH", …)` |
| Router.FirstMatchFrom | src/router.cpp:70-72 | the first entry from position k whose pattern fully matches the path, or none when no later entry matches |
| Router.FirstMatch | src/router.cpp:70-72 | the earliest entry of the table that matches; none exactly when no entry matches |
| Router.FirstMissing | src/router.cpp:74-78 | none exactly when every mandatory field is a query key; otherwise a missing field, the first one in set order |
| Router.MissingFieldMessage | src/router.cpp:77 | the exception text names the missing field |
| Router.Handle | src/router.cpp:66-89 | unhandled exactly when no entry of the method's table matches, and always for a method with no table; otherwise the first matching entry decides: a missing mandatory field throws naming the first missing field, else that entry's handler runs with the full-match groups and the query parameters |
| Router.Clear | src/router.cpp:91 | every method's table is empty afterwards |
| Router.ClearHandlesNothing | src/router.cpp:66-91 | after `clear` no request is handled |
| Router.GroupsStartWithPath | src/router.cpp:72-81 | the match results reach the handler unchanged, so under the assumed `std::regex` property they start with the whole request path |
| Router.FirstMatchFromAppend | src/router.cpp:59-72 | appending an entry cannot change which earlier entry matches first |
| Router.LaterEntriesNeverRun | src/router.cpp:59-85 | a newly registered route never shadows an existing one: any request an earlier entry answered is answered the same way afterwards, and a request nothing answered before now reaches the new entry exactly when its pattern matches |
| Router.OtherMethodsUnaffected | src/router.cpp:58-69 | registering under one method leaves the answers for every other method unchanged |
| Router.PresenceOnly | src/router.cpp:74-75 | only which query keys are present matters to the mandatory check, not their values |
| Router.RegisterAllSucceeds | src/router.cpp:53-64 | a run of registrations throws exactly when some pattern does not compile |
| Router.RegisterAllTables | src/router.cpp:53-64 | after a run that does not throw, each method's table is the old one followed by that method's entries in registration order |
| Router.ClearThenReRegister | src/router.cpp:53-91 | whatever routes were held before, clearing and registering the same routes in the same order answers every request as those registrations answer it on their own, and each table is exactly its method's registrations |
| Router.HandleByTables | src/router.cpp:66-89 | two routers whose tables agree for every method dispatch every request alike |
| Mountpoint.RelativePath | include/mountpoint.hpp:28-33 | the path is the mount point followed by the result, with one separating slash removed exactly when it was there |
| Mountpoint.ExtensionOf | include/mountpoint.hpp:35-40 | `txt` when the path has no dot; otherwise the text after the last dot |
| Mountpoint.MimeTypeFor | include/mountpoint.hpp:75-99 | agrees with the table of html/htm, js/mjs, css, png, jpg/jpeg, and gives `text/plain; charset=utf-8` for any other extension |
| Mountpoint.ExtensionCaseSensitive | include/mountpoint.hpp:75-99 | the comparison is case-sensitive: any extension with an upper-case letter is served as plain text |
| Mountpoint.Handle | include/mountpoint.hpp:24-72 | a path outside the mount point is not handled and nothing is written; inside it the request is always handled, with either a 200 header carrying the MIME type and the file length followed by the file's bytes, or a 404 page when the file cannot be read |
| Mountpoint.ContentLengthMatchesBody | include/mountpoint.hpp:50-58 | the content length written is the number of bytes that follow |
| Mountpoint.DoubledSlashLeavesRoot | include/mountpoint.hpp:28-45 | only one slash is stripped, so for any mount a path with `//` right after the prefix resolves to the absolute path after the first slash, outside the mount root |
| Script.GetCallback | src/script.cpp:104-111 | succeeds exactly when the pattern compiles, then appends the Lua function as a GET route with its required fields and changes nothing else |
| Script.PostCallback | src/script.cpp:113-120 | the same for POST |
| Script.MountCallback | src/script.cpp:124-127 | appends one mountpoint whose directory is resolved against the script root, leaving routes and earlier mountpoints as they were |
| Script.RunCalls | src/script.cpp:141-148 | a script runs without error exactly when every call it makes goes through; whatever happens, the engine only grows |
| Script.OkPrefix | src/script.cpp:141-148 | the number of calls a script makes before the first one that fails: all before it go through, and the one at it does not |
| Script.RunCallsRoutes | src/script.cpp:104-120 | the routes a script leaves are exactly those of registering its `Get`/`Post` calls before the first failing call, in order, and that registration does not throw |
| Script.RunCallsMounts | src/script.cpp:124-127 | the mountpoints a script leaves are the earlier ones followed by its `Mount` calls before the first failing call, in order, each rooted at the script root joined with its directory |
| Script.RunCallsEffect | src/script.cpp:104-127 | up to its first failing call, a script appends its GET and POST routes to the end of their verbs' tables and its mountpoints to the end of the list, all in call order; it finishes cleanly exactly when no call fails |
| Script.RunFile | src/script.cpp:135-148 | a file loads without an exception exactly when it compiles and runs cleanly; the exception names the file; a file that does not compile changes nothing and fails compilation; a file that compiles leaves the engine its calls leave, and can only fail execution |
| Script.RunStep | src/script.cpp:132-153 | one step of a load: a `.lua` file is loaded as `RunFile` loads it; a directory that cannot be listed throws naming that directory and changes nothing |
| Script.FirstFailing | src/script.cpp:132-154 | the first step that throws, or none when none does |
| Script.RunSteps | src/script.cpp:132-154 | loading stops with an error exactly when some step throws, and the error names the path of the first; the engine only grows |
| Script.NoRollback | src/script.cpp:136-148 | when step k throws, the result is the effect of every earlier step plus step k's partial run, with nothing after it and nothing undone |
| Script.LoadExtensions | src/script.cpp:130-132 | a directory that cannot be listed throws at once and changes nothing; otherwise the load only ever adds routes and mountpoints |
| Script.LoadEntries | src/script.cpp:132-155 | the loop over a directory's entries only ever adds routes and mountpoints |
| Script.RunStepsAppend | src/script.cpp:132-154 | performing two lists of steps one after the other is performing the first, then the second only if the first succeeded |
| Script.LoadIsRunOfSteps | src/script.cpp:132-155 | the recursive traversal equals performing the flat, depth-first list of regular `.lua` files and unlistable subdirectories in listing order; other files are skipped |
| Script.LoadExtensionsIsRun | src/script.cpp:130-155 | loading a directory equals performing its flat list of steps, which is a single failing step when the directory itself cannot be listed |
| Script.LoadSucceedsIffAllStepsOk | src/script.cpp:130-155 | a load succeeds exactly when every directory reached can be listed and every `.lua` file in them compiles and runs cleanly, and otherwise reports the first step that does not |
| Script.Reload | src/script.cpp:11-26 | the root is kept, the old mountpoints stay as a prefix, loading starts from empty routes, and it throws exactly when a directory under the root, or the root itself, cannot be listed or some `.lua` file fails, naming the first |
| Script.Construct | src/script.cpp:9 | construction throws exactly when the root or a directory under it cannot be listed or some `.lua` file under it fails to compile or run |
| Script.RunCallsShift | src/script.cpp:124-127 | mountpoints already present have no influence on what a script registers |
| Script.RunStepsShift | src/script.cpp:124-155 | the same for a whole list of load steps |
| Script.ReloadTwice | src/script.cpp:11-26 | a second successful reload rebuilds the same routes but appends the scripts' mountpoints a second time |
| Script.FirstMount | src/script.cpp:157-164 | the earliest mountpoint whose prefix matches, or none when none matches |
| Script.HandleMountpoint | src/script.cpp:157-164 | the first matching mountpoint in insertion order answers, whatever its file read gives; handled exactly when some mount point is a prefix of the path |
| Script.HandleRoute | src/script.cpp:166 | route handling is the router's answer for the engine's routes |
| Server.Initial | src/server.cpp:15 | a new server has no connections |
| Server.JsonResponse | src/server.cpp:48-54 | a text frame (opcode 1) whose object always has `"e": code` and has `"m": msg` exactly when the message is non-empty, with no other keys |
| Server.HtmlResponse | src/server.cpp:56-58 | a simple HTML response with the given status and body |
| Server.TextResponse | src/server.cpp:60-62 | a simple plain-text response with the given status and body |
| Server.OnRequest | src/server.cpp:17-26 | one effect per request: a routed request runs its handler for this client with the query parameters, a missing field throws the router's message, and anything else gets the 404 "Krabby is angry" page |
| Server.OnRequestIgnoresMounts | src/server.cpp:20-25 | the answer does not depend on the mountpoints |
| Server.OnMessage | src/server.cpp:28-38 | binary frames are ignored; a text frame is answered with the 404 "Not implemented" JSON error exactly when it comes from a known connection |
| Server.OnDisconnect | src/server.cpp:40-45 | the client is no longer a connection and every other connection is kept |
| Server.Step | src/server.cpp:17-45 | no event adds a connection; a request is answered by `OnRequest` and keeps the server; a message is answered by `OnMessage`; a disconnect only drops the connection and sends nothing |
| Server.NoFrameEverSent | src/server.cpp:15-45 | from a fresh server, after any sequence of events there are still no connections and no WebSocket frame has been written |

## Left out

- The Lua interpreter (sol2) is not modelled: the type registrations of
  `register_types`, the `template`, `html_response`, `text_response`,
  `hash_password`, `hash_sha1` and `hmac_sha1` globals, and the text of
  Lua error messages. A script is modelled only by the callback calls it
  makes and whether it compiles.
- `std::regex` semantics: a pattern is modelled by whether it compiles and
  by what `regex_match` returns.
- File-system I/O: `read_file`, `directory_iterator` and `is_regular_file`
  become a byte map and a tree of entries. The error text of a failed read
  is not modelled.
- Script.LoadEntries: a `filesystem_error` from querying the type of one
  entry (`is_regular_file`, `is_directory`) is not modelled. Only a
  directory that cannot be listed throws; every listed entry is a regular
  file, a directory or something else.
- Query-string parsing (`parse_query_params`) is done by the transport
  library. The parameters are an input of the model.
- The crab transport: client objects, buffering (`BUFFER_ONLY`) and the
  HTTP/WebSocket wire formats. Writes are records.
- JSON serialisation (`j.dump()`): a frame carries the JSON object as a
  map.
- `hash_sha1`, `hmac_sha1`, `hash_password`, `server_time` and
  `generate_key` depend on SHA-1, Base64, the clock and randomness.
  `xor_sha1_key` and `string_to_hex`, which `hmac_sha1` builds on, are
  modelled.
- The logger's mutex, `fmt` formatting and the writes to stderr. The
  `enabled()` and `level()` getters are the two fields of `Log.Logger`.
  The `?.?` prefix is unreachable for the five declared levels and is not
  modelled.
- `main.cpp`, the database and the template environment. In particular,
  `main` never constructs `singleton<script_engine>`, so `instance()`
  would dereference null on the first request. `Server.OnRequest` takes
  the engine as a parameter instead.
- `mountpoint` keeps `point_` as a `string_view` into the argument passed
  to the constructor. For a mountpoint created from a script that string
  no longer exists. The model keeps an owned copy of the point.
- `Mountpoint.RelativePath`: when the path equals the mount point, the
  C++ code reads `*path.begin()` of an empty string, which is undefined.
  The model strips nothing in that case.
- `Util.LTrim`, `Util.RTrim`, `Util.StrLower`: `isspace` and `tolower`
  get `char` values, which are negative for bytes above 127. That is
  undefined in C. The model treats such characters as non-space and
  leaves them unchanged when lowering.
- `Util.SplitN`: the count is a 32-bit `int` (`Util.IsInt32`), and the
  conversion to a 64-bit `size_t` is modelled by `Util.SizeLimit`.
- Concurrency: the run loop is single-threaded, and events are handled one
  after another (`Server.Run`).
