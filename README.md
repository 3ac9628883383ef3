# r2 router, modelled in Dafny

r2 is a small HTTP router for Go. A `Router` holds a trie of path
segments, a path prefix and a cache of compiled regular expressions.

- **Registration.** `route` splits a path such as `/users/:user!int` at its
  slashes. For each part it reuses or creates one child. A literal part is
  keyed by its own text. A parameter part (`:name`, optionally with a
  constraint after `!`) is keyed by the sentinel `"?"`. Two different
  parameter names at one position are a fatal conflict. The handler is then
  added under its HTTP method, and registering the same method twice is
  fatal.
- **Lookup.** `get` strips the prefix and answers `""` and `"/"` from the
  root. It drops one leading slash and scans the rest position by position.
  At each slash or at the last position it closes a segment and descends:
  the literal child if there is one, otherwise the parameter child if its
  constraint accepts the segment, capturing the segment under the
  parameter's name. There is no backtracking.
- **Dispatch.** `ServeHTTP` turns the result into Not Found, Method Not
  Allowed or a call of the handler. The handler is the one for the exact
  method, or else the one registered for any method (`"?"`).

The model has these modules:

| module | file | contents |
|---|---|---|
| `Wrappers`, `Errors` | | `Option`, `Result`, and the fatal conditions as a `RouteError` value |
| `Strings` | `strings.dfy` | `strings.Split`, `Trim`, `TrimSpace` and `Index` over `seq<char>`, and their round trips |
| `Patterns` | `patterns.dfy` | the pattern rewriting of `compileRe`; the regexp library is an `Engine` value |
| `Trie` | `trie.dfy` | the node datatype, `add`, `validParam`, and the walk that lookup performs |
| `Registrar` | `registrar.dfy` | `split`, `separate` with its cache, and `route` as pure functions, with their invariants |
| `Matcher` | `matcher.dfy` | `get` as a pure function (prefix, slashes, segments), the `ServeHTTP` dispatch, `Path.Get`, and the round trip with registration |
| `R2` | `r2.dfy` | the class `Router`. Its methods run the loops of `route`, `separate` and `get` and are proved equal to the pure definitions; the trie itself is a value that `route` rebuilds along its descent |
| `Scenarios` | `scenarios.dfy` | registrations shaped like the router's own tables, stated for any segment texts |
| `Utf8Scan` | `utf8scan.dfy` | the lookup scan as written, over UTF-8 byte offsets; see Findings |

## Model

| member | source | states |
|---|---|---|
| Trie.ValidParam | router.go:140-156 | a parameter name is valid below a node exactly when the node has no parameter child or its parameter child has that name |
| Trie.Add | router.go:158-170 | fails with DuplicateMethod exactly when the method already has a handler; otherwise only that entry is added, children and parameter untouched |
| Trie.AddExtends | router.go:158-170 | a successful add extends the node: every earlier handler and child survives |
| Trie.NewNode | router.go:46-48 | a new node has no children, nil handlers, no parameter name and no constraint |
| Trie.Bind | router.go:223-226 | after binding, the name holds the segment and every other captured variable is kept unchanged; a nil map becomes a map |
| Trie.Walk | router.go:201-231 | a walk over no segments stays at the node with its variables; a walk that already holds variables ends holding every one of their names |
| Trie.LiteralWalk | router.go:211-214 | along a path of literal children the walk reaches the end node and captures nothing |
| Trie.NoBacktracking | router.go:211-229 | when a segment has a literal child, a failure below it is final even if the parameter child would have matched |
| Trie.ParameterStep | router.go:214-227 | without a literal child: no parameter child or a rejecting constraint fails; otherwise the walk binds the segment to the parameter's name and goes on |
| Trie.NilVarsIffLiteral | router.go:223-226 | the variable map stays nil exactly when every segment was matched literally |
| Trie.CapturedStaysCaptured | router.go:223-226 | once a variable is captured the map is never nil again |
| Trie.CapturesComeFromSegments | router.go:223-226 | every captured value is one of the request's segments |
| Trie.CapturedNamesNonEmpty | router.go:223-226 | in a well-formed trie no captured variable has an empty name |
| Trie.ExtendsKeepsLiteralPath | router.go:120-135 | later registrations keep every literal path and the handlers at its end |
| Trie.ExtendsTransitive | router.go:120-135 | extending is transitive, so any sequence of registrations extends the first trie |
| Patterns.Rewrite | router.go:274-290 | "" fails with EmptyPattern; `int` and `float` become their fixed sources; any other pattern is kept, with one `^` added in front exactly when it does not start with `^` and one `$` added behind exactly when it does not end with `$`; every result is anchored |
| Patterns.AddAnchors | router.go:283-288 | the result is anchored and is the input at offset 0 or 1: one character is added in front exactly when the input lacks `^`, and one behind exactly when it lacks `$` |
| Patterns.RewriteIdempotent | router.go:274-290 | rewriting a rewritten pattern changes nothing |
| Patterns.Compile | router.go:274-295 | succeeds exactly when rewriting succeeds and the library accepts the rewritten source, and then the pattern is that rewritten source; "" fails with EmptyPattern, a refused source with BadPattern of that source |
| Registrar.Split | router.go:270-272 | at least one part, no part holds a slash, and the parts joined by slashes give the path with all leading and trailing slashes trimmed |
| Registrar.SplitOfJoin | router.go:270-272 | a slash followed by non-empty slash-free parts joined by slashes splits back into exactly those parts |
| Registrar.ParamName | router.go:243-252 | the name is a slice of the text between `:` and the first `!` (or the end) with only white space around it, and it has no white space at either end, so it is that text with white space trimmed; it holds no `!` |
| Registrar.PatternOf | router.go:243-260 | there is a raw constraint exactly when the part starts with `:` and holds a `!`; it is everything after the first `!` |
| Registrar.Cached | router.go:260-267 | a cached raw pattern is returned with the cache unchanged; otherwise it is compiled and cached under its raw text, or compiling's error is returned |
| Registrar.Separate | router.go:235-268 | a literal part is returned as it is; an empty parameter name fails; a parameter without `!` has no constraint; a constraint goes through the cache |
| Registrar.SeparateGrowsCache | router.go:262-267 | separate never loses a cache entry and adds at most the part's own raw pattern; a constraint is returned exactly when the part has one |
| Registrar.SeparateMemoised | router.go:262-267 | with any valid cache, separate gives the same outcome as with an empty cache and leaves a valid cache |
| Registrar.CachedMemoised | router.go:262-267 | with a valid cache, the cache step gives exactly what compiling gives |
| Registrar.Fresh | router.go:127-133 | a node created during registration has no children and nil handlers; a parameter child carries the parsed name and constraint, a literal child an empty name and no constraint |
| Registrar.Insert | router.go:106-137 | on success the node keeps its own parameter name and constraint; with no parts left it fails, with DuplicateMethod, exactly when the method already has a handler |
| Registrar.RouteSpec | router.go:95-138 | a nil handler fails with NilHandler, then "" with EmptyPath; "/" fails exactly when the root already has the method and otherwise changes only the root's handlers; a success extends the root (every handler, child and parameter is kept) |
| Registrar.RouteRefusesEmpty | router.go:297-304 | a nil handler is refused first, then an empty path |
| Registrar.InsertExtends | router.go:106-137 | a successful registration only extends the trie and the cache |
| Registrar.InsertLiteral | router.go:106-137 | registering literal parts leaves a literal path to a node holding the handler under its method |
| Registrar.InsertCacheValid | router.go:106-137 | registration keeps every cache entry equal to what compiling its raw text gives |
| Registrar.SeparateAnchored | router.go:262-267 | a constraint obtained through a valid cache is anchored |
| Registrar.StepChildFits | router.go:120-134 | the child route descends into is well formed and fits its key, whether it is reused or new |
| Registrar.InsertWellFormed | router.go:106-137 | registration keeps the trie well formed when no literal part is `"?"` |
| Registrar.ParamConflictFails | router.go:108-113 | a parameter part under a node whose parameter child has another name fails with ParamConflict, whatever follows |
| Registrar.RouteWellFormed | router.go:95-138 | route keeps the trie well formed and the cache valid when no literal part is `"?"` |
| Registrar.SecondRegistration | router.go:158-170 | registering a path again with the same method fails with DuplicateMethod; with another method it succeeds exactly when it would have succeeded on the original trie |
| Matcher.Segments | router.go:190-231 | at least one segment, none holding a slash; without a trailing slash the segments joined by slashes give the path back |
| Matcher.ScanSegments | router.go:199-231 | the position loop closes at least one segment when any position is left, and at most one per position |
| Matcher.Resolve | router.go:181-232 | "" and "/" answer with the root's handlers and no variables; no captured value holds a slash |
| Matcher.CapturesHaveNoSlash | router.go:208-226 | a walk over slash-free segments captures only slash-free values |
| Matcher.ScanIsSplit | router.go:199-232 | the segments the position loop closes are the pieces between slashes, with a final slash only ending the last piece |
| Matcher.Lookup | router.go:174-183 | a path without the prefix finds nothing; the prefix alone, or followed by "/", answers with the root's handlers and no variables |
| Matcher.LookupAfterPrefix | router.go:174-179 | whatever follows the prefix is resolved on its own |
| Matcher.SlashNormalisation | router.go:189-197 | one leading and one trailing slash make no difference: `/s`, `s/`, `/s/` and `s` reach the same answer |
| Matcher.DoubleSlashIsEmptySegment | router.go:189-192 | lookup drops only one leading slash; a second one is an empty first segment |
| Matcher.RegistrationTrimsAllSlashes | router.go:270-272 | registration, unlike lookup, trims every leading slash |
| Matcher.RootRoundTrip | router.go:101-104 | after route "/", both the prefix and the prefix followed by "/" find the root's new handler and capture nothing |
| Matcher.RouteThenLookup | router.go:95-138 | after registering a path of literal parts, looking that path up finds the handler under its method and captures nothing |
| Matcher.InsertThenLookup | router.go:106-137 | the same round trip stated on the split parts |
| Matcher.LookupLiteralJoin | router.go:172-233 | the lookup of a literal path ends at the node that path descends to, capturing nothing |
| Matcher.RouteOfJoin | router.go:106 | registering a slash and non-empty parts joined by slashes inserts exactly those parts |
| Matcher.SegmentsOfJoin | router.go:199-232 | lookup splits a join of non-empty slash-free parts back into the parts |
| Matcher.Dispatch | router.go:77-89 | Not Found exactly when the handler map is nil; Method Not Allowed exactly when neither the method nor `"?"` is in it; otherwise the exact method's handler, else the any-method handler, with the captured variables |
| Matcher.AnyMethodAnswersAll | router.go:82-84 | a node registered only for any method answers every method with that handler |
| Matcher.PathGet | router.go:314-320 | the captured value of a name, or "" for a nil map or a missing name |
| R2.Router.constructor | router.go:50-52 | a new router has an empty root, the given prefix and an empty cache |
| R2.Router.Separate | router.go:235-268 | the method returns what Registrar.Separate returns and leaves its cache as the new cache |
| R2.Router.Route | router.go:95-138 | fails exactly when RouteSpec fails, with the same error; on success the root and cache are RouteSpec's result |
| R2.Router.InsertParts | router.go:106-137 | the loop over the parts, with frames of (parent, key), ends where Registrar.Insert ends |
| R2.Router.Get | router.go:172-233 | returns exactly Matcher.Lookup of the router's trie and prefix |
| R2.Router.Scan | router.go:199-232 | the position loop returns the answer of the walk over the segments it closes |
| R2.Router.Serve | router.go:73-89 | the dispatch decision for the lookup of the request path |
| R2.InsertFirst | router.go:106-135 | one iteration of route's loop: separate's error, the parameter conflict, or the rest inserted into the reused or created child |
| R2.WalkFirst | router.go:211-229 | one closed segment: the literal child, else the parameter child if its constraint accepts, else no route |
| R2.GetStart | router.go:184-197 | past the prefix and the root cases, with one leading slash dropped, lookup is the walk over the scanned segments |
| Scenarios.SeparatePlain | router.go:239-258 | `:name` parses to the name with no constraint and an unchanged cache |
| Scenarios.SeparateConstrained | router.go:243-267 | `:name!pat` parses to the name and the cached or newly compiled `pat` |
| Scenarios.StaticBeatsParameter | router_test.go:314-339 | after `/users/:user` and `/users/topusers`, `/users/topusers` finds the static handler and captures nothing, and any other segment is captured as `user` |
| Scenarios.LookupsBesideParam | router_test.go:336-339 | the two lookups of StaticBeatsParameter on the resulting trie |
| Scenarios.ParamNameConflict | router_test.go:318 | a second parameter name at one position is a conflict |
| Scenarios.SameParamOtherMethod | router_test.go:315-316 | the same parameter path registers again exactly for another method |
| Scenarios.InsertSameParam | router_test.go:315-316 | the same at the level of the split parts |
| Scenarios.InsertConflict | router.go:108-113 | a trie with parameter `x` refuses parameter `y` at that position |
| Scenarios.ConstraintFilters | router_test.go:325-346 | after `/a/:n!pat`, a segment is found and captured exactly when the compiled rewritten pattern matches it; the cache then holds `pat` |
| Scenarios.ConstrainedLeaf | router.go:220-222 | below a constrained parameter the walk succeeds exactly when the constraint matches |
| Scenarios.InsertConstrained | router.go:106-137 | the trie and cache that registering a constrained parameter builds |
| Scenarios.InsertParam | router.go:106-137 | the trie that registering `/a/:name` builds on an empty router |
| Scenarios.RegisterParam | router.go:95-138 | the same, from route |
| Scenarios.InsertStatic | router.go:120-135 | a literal registered beside an existing parameter child becomes a sibling of it |
| Scenarios.RegisterStatic | router.go:95-138 | the same, from route |
| Scenarios.InsertNewLiteral | router.go:129-135 | a new literal part gets a fresh child holding the handler |
| Scenarios.RouteTwo | router.go:106 | a two-part path is inserted as its two parts |
| Scenarios.LookupTwo | router.go:189-232 | a two-segment request path is walked as its two segments |
| Scenarios.WalkToStatic | router.go:211-214 | a literal child is taken without capturing |
| Scenarios.WalkToParam | router.go:214-226 | a segment without a literal child is captured by the parameter child |
| Scenarios.SentinelCollision | router.go:25-28 | a literal part `"?"` is stored under the parameter key with an empty name, so it captures any segment under "" |
| Scenarios.InsertSentinel | router.go:120-135 | the trie that registering a literal `"?"` builds |
| Utf8Scan.ByteLenAppend | router.go:179 | the byte length of a concatenation is the sum of the byte lengths |
| Utf8Scan.ClosesAtEnd | router.go:201 | the byte offset of a character equals the byte length minus one exactly when it is the last character and is one byte long |
| Utf8Scan.ScanAsWritten | router.go:199-231 | the scan with the byte-offset end test closes at most one segment per position |
| Utf8Scan.LookupAsWritten | router.go:172-233 | get as written: a path without the prefix finds nothing, and the prefix alone or followed by "/" answers with the root's handlers and no variables |
| Utf8Scan.AsciiEndAgrees | router.go:199-232 | when the last character is one byte, the scan as written closes the same segments as the intended scan |
| Utf8Scan.WideEndDropsLast | router.go:199-232 | when the last character is wider, the scan as written loses exactly the last segment |
| Utf8Scan.LookupAgreesOnAscii | router.go:172-233 | lookup as written equals Matcher.Lookup for paths ending in a one-byte character |
| Utf8Scan.RegisteredButNotFound | router.go:201-203 | `/é` registers, yet lookup as written finds nothing, while the intended lookup finds the handler |

## Left out

- HTTP itself is not modelled: request and response writers, `http.NotFound`, `http.Error` and the `Env` passed to a handler. `ServeHTTP` is modelled as the decision it takes (`Matcher.Dispatch`, `R2.Router.Serve`).
- Go's regexp package is not modelled. An `Engine` value says which sources compile and which strings a compiled pattern matches. Compiled patterns are identified by their source text.
- `log.Fatal` becomes a `RouteError` result. Because the original process exits, nothing is claimed about the trie after an error.
- R2.Router.Route: the trie is a value rebuilt along the descent (`Plug`), not a graph of pointers updated in place. Aliasing between nodes, and the child the original has already attached when a later part is fatal, are not modelled.
- R2.Router.InsertParts: the same; the loop keeps the frames of its descent and rebuilds the root from them once the handler is added.
- The exported wrappers `Route`, `Get`, `Post`, `Put`, `Delete` and `Patch` are not modelled, since each only calls `route` with a fixed method. The printing helpers `Print`, `printTree`, `sortedParts` and `funcName` are not modelled either, since they only produce output or text for error messages.
- `Path.Int` and `Path.Float` are not modelled: they only wrap `strconv` parsing of `Path.Get`.
- Registrar.InsertWellFormed, Registrar.RouteWellFormed: stated only for paths without a literal `"?"` part. Such a part collides with the parameter key, as Scenarios.SentinelCollision shows.
- The lookup of a request segment that is literally `"?"` is not singled out; it walks into the parameter child like any key found in the map.
- Lookup is modelled over characters (`seq<char>`), not bytes. The byte offsets of Go's `range` loop appear only in `Utf8Scan`.
- Registration trims every leading and trailing slash, whereas lookup drops only one of each. This asymmetry is modelled as written: see Matcher.DoubleSlashIsEmptySegment and Matcher.RegistrationTrimsAllSlashes.
- The slice `path[:l]` at router.go:195-197 keeps the whole path, so it does nothing. It is modelled as written, and the trailing slash is handled by the scan.
- The table entry at router_test.go:53 carries a comment saying it should fail, yet it registers a literal `clients` beside `:id`, which is not a conflict. The model follows the code: only two parameter names at one position conflict.
- Matcher.Lookup: uses the corrected end test, which closes the last segment at the last character instead of comparing a byte offset with the byte length. For a path ending in a multi-byte character it therefore reaches the last node, whereas `get` as written answers from the node before it (Utf8Scan.WideEndDropsLast). `get` as written is Utf8Scan.LookupAsWritten.
- R2.Router.Get: proved equal to Matcher.Lookup, so it has the same corrected end test and differs from `get` as written in the same way for a path ending in a multi-byte character.
- R2.Router.Scan: its loop tests the last position by character, not by byte offset, for the same reason.
- Unicode white space in `strings.TrimSpace` is modelled by the fixed list of Go's `unicode.IsSpace`.

## Findings

| source | as written | input that shows it | evidently intended | confidence | as-written member | corrected member |
|---|---|---|---|---|---|---|
| router.go:201-203 | `pos == l-1` compares the byte offset that `range` yields with the byte length, so the last segment only closes when its last character is one byte long in UTF-8 | register `GET /é`, then look up `/é`: the scan never closes the segment `é`, and lookup answers nil, nil | close the last segment at the last character, whatever its width | not executed | Utf8Scan.RegisteredButNotFound | Matcher.ScanIsSplit |
