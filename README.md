# PythonMap content-index and caching pipeline, in Dafny

PythonMap is a static site that publishes a tree of scripts, READMEs and curated notepads. This
project models the four pieces of it that index that content and cache it:

- **FileCache** (`file_cache.dfy`) is the browser's in-memory cache of file artifacts. Entries are
  keyed `type:path` and kept in insertion order. Expiry is lazy, after five minutes, and files
  over 1 MiB are never stored. Eviction removes the oldest entries when the count goes over 50.
  The model also keeps the hit, miss, size and byte counters and renders the hit rate to one
  decimal. It is a class whose methods change the map and the counters in place.
- **ServiceWorker** (`service_worker.dfy`) is the offline policy of the service worker:
  - request paths are classified into static, data, pages or default, each with a maximum age;
  - a stored response is fresh while it is younger than that age;
  - the `fetch` handler chooses between bypass, a fresh hit, a network fetch (storing ok
    responses), a stale copy on error, or a 503;
  - the `activate` cleanup and the `CLEAR_CACHE` / `GET_CACHE_INFO` messages are modelled.

  The Cache Storage is a list of named caches in creation order. Each cache is a list of
  URL-to-response bindings.
- **SearchIndexBuilder** (`search_index_builder.dfy`) is the build-time indexer. The file system
  is a tree datatype whose files may be unreadable. A `Builder` object appends records to its
  `searchIndex`:
  - notepad records come first;
  - then a depth-first walk of `scripts`: each subdirectory's README record precedes its
    contents, and each file with an indexed extension gets a record typed by that extension;
  - anything unreadable is skipped and the walk goes on.

  The methods are proved against the specification function `Walk`, and the properties of the
  index are proved about `Walk`.
- **SearchStore** (`search_store.dfy`) is the client-side loader of the search index:
  - the index is fetched once and cached;
  - the items' tags are collected into a Set and sorted in JavaScript's default (UTF-16
    code-unit) order;
  - a failure empties the published index and tags and records the message; data that was
    already cached when the `tags` check failed stays cached and is served by the next call
    without a fetch, while any other failure leaves the cache empty so the next call fetches again;
  - clearing restores the initial state.

Two shared modules support these. `Common` holds Option, the string tests that stand in for the
regular expressions, ASCII lower-casing and decimal rendering. `OrderedMap` is an
insertion-ordered dictionary: a JavaScript `Map`, or a cache's request list.

Clocks, the network, the file system and the `browser` flag are parameters of the operations.

Where the project's own design description and the code disagree, the model follows the code:

- The file cache can hold 51 entries, not at most 50. When a 51st new key arrives at 50
  resident entries, nothing is evicted (the guard is `size <= 50`) and the key is added
  (`FileCache.InsertAfterEvictionCount`).
- A file-cache entry expires only when strictly more than five minutes old. A lookup at exactly
  T + 5 min is still a hit.
- The service worker dates a stored response by the origin's `date` header when there is one.
  It falls back to its own `sw-cached-at` stamp only when that header is absent or empty
  (`ServiceWorker.StoredCopyFreshness`).

## Model

| member | source | states |
|---|---|---|
| Common.ContainsIff | static/service-worker.js:29-39 | an unanchored pattern over a literal matches exactly when the literal occurs at some position of the path |
| Common.AsciiLower | build-tools/build-search-index.js:86 | lower-casing keeps the length and maps exactly the letters A-Z to a-z, every other character unchanged |
| Common.NatToString | src/lib/stores/search.js:40 | a number renders as a non-empty string of decimal digits without a leading zero |
| Common.DecimalRoundTrip | src/lib/stores/fileCache.js:184 | reading the rendered digits back gives the number rendered |
| OrderedMap.Keys | static/service-worker.js:195-199 | `keys()` lists one key per binding, position by position, in insertion order |
| OrderedMap.DistinctCard | static/service-worker.js:195-198 | a list has no repeated key exactly when its number of distinct keys equals its length |
| OrderedMap.DistinctKeysUnique | src/lib/stores/fileCache.js:81-82 | in a dictionary two bindings of the same key are the same binding |
| OrderedMap.Find | src/lib/stores/fileCache.js:81-82 | `get` finds a value exactly for a bound key, and the value found is bound to it |
| OrderedMap.FindBinding | src/lib/stores/fileCache.js:81-82 | in a dictionary `get` returns the one value the key is bound to |
| OrderedMap.Delete | src/lib/stores/fileCache.js:64 | `delete` keeps exactly the bindings of other keys, removes the key, keeps a dictionary one shorter when the key was bound |
| OrderedMap.Without | static/service-worker.js:71-75 | deleting a set of keys keeps exactly the bindings of the other keys, and never lengthens the list |
| OrderedMap.WithoutOneMore | static/service-worker.js:71-75 | deleting one more key is one more `delete` on the result |
| OrderedMap.WithoutCount | src/lib/stores/fileCache.js:60-65 | deleting k bound keys from a dictionary removes exactly k bindings |
| OrderedMap.Put | static/service-worker.js:156 | `put` binds the key to the new value, adds the key to the key set, keeps a dictionary, and places the binding last |
| OrderedMap.Update | static/service-worker.js:124-156 | rebinding a key in place keeps the length, the keys and every other key's value, and binds the key to the new value |
| OrderedMap.FindPutOther | static/service-worker.js:156 | `put` leaves every other key's value as it was |
| OrderedMap.FindDelete | src/lib/stores/fileCache.js:64 | `delete` leaves every other key's value as it was |
| OrderedMap.FindWithout | static/service-worker.js:71-75 | deleting other keys leaves a key's value as it was |
| OrderedMap.AppendFacts | src/lib/stores/fileCache.js:127 | adding a binding for a new key extends the key set by it, keeps a dictionary, and changes only that key's value |
| OrderedMap.DeleteAbsent | src/lib/stores/fileCache.js:86 | deleting an unbound key changes nothing |
| OrderedMap.DistinctPrefix | src/lib/stores/fileCache.js:61-62 | a prefix of a dictionary is a dictionary, and the next key is not bound in it |
| FileCache.Utf8Width | src/lib/stores/fileCache.js:48-50 | a character takes one to four bytes |
| FileCache.ByteSize | src/lib/stores/fileCache.js:48-50 | the byte size of a text is between its length and four times its length |
| FileCache.CacheKeysSeparate | src/lib/stores/fileCache.js:38-40 | `CacheKey` (`getCacheKey`): README and script lookups never share a key, and for one type different paths have different keys |
| FileCache.EscapePath | src/lib/stores/fileCache.js:105 | every `/` and `\` becomes `_`, every other character is kept |
| FileCache.ArtifactName | src/lib/stores/fileCache.js:104-110 | the artifact name contains no separator and ends in `.html` for READMEs and `.txt` otherwise |
| FileCache.SeparatorStyleIrrelevant | src/lib/stores/fileCache.js:104-110 | a path with backslashes fetches the same URL as its slash form |
| FileCache.EscapingCollides | src/lib/stores/fileCache.js:78-110 | `a/b` and `a_b` have different cache keys but fetch the same URL |
| FileCache.TotalBytesAppend | src/lib/stores/fileCache.js:134 | storing an entry adds its byte size to the total |
| FileCache.TotalBytesDelete | src/lib/stores/fileCache.js:63-64 | deleting a resident entry subtracts its byte size from the total |
| FileCache.InsertByAgeFacts | src/lib/stores/fileCache.js:57 | inserting into an age-ordered list keeps it ordered and adds exactly the entry |
| FileCache.SortByAgeFacts | src/lib/stores/fileCache.js:57 | `SortByAge` (the timestamp sort): an oldest-first permutation of the entries |
| FileCache.SortedIsDictionary | src/lib/stores/fileCache.js:57 | the sorted entries are the same bindings, with the same keys, still unique |
| FileCache.EvictedKeysFacts | src/lib/stores/fileCache.js:60-65 | eviction selects `size - 50 + 1` distinct resident keys |
| FileCache.EvictedCount | src/lib/stores/fileCache.js:53-66 | `Evicted` (`evictOldestEntries`' result): at most 50 entries are left alone; above 50 exactly 49 remain; no entry is invented and keys stay unique |
| FileCache.EvictedOldest | src/lib/stores/fileCache.js:56-65 | every evicted entry is at least as old as every entry kept |
| FileCache.EvictedBytes | src/lib/stores/fileCache.js:63 | the byte total drops by exactly the sizes of the evicted entries |
| FileCache.DeleteInOrder | src/lib/stores/fileCache.js:61-65 | the loop deletes exactly the first `count` keys in age order and leaves the byte total equal to the sizes still resident |
| FileCache.DeleteWellFormed | src/lib/stores/fileCache.js:85-88 | dropping an expired entry shrinks the cache by one and its byte total by the entry's size |
| FileCache.AppendWellFormed | src/lib/stores/fileCache.js:127-134 | storing a new key with its own size keeps the bookkeeping exact |
| FileCache.InsertAfterEvictionCount | src/lib/stores/fileCache.js:124-133 | after evict-then-insert the cache holds at most 51 entries, exactly 51 when it held 50 |
| FileCache.HitRateTenths | src/lib/stores/fileCache.js:183-185 | the rate in tenths of a percent is the exact ratio rounded to nearest, at most 1000, and 0 without requests |
| FileCache.FixedOne | src/lib/stores/fileCache.js:184 | `toFixed(1)` output has a decimal point before its last digit |
| FileCache.FixedOneRoundTrip | src/lib/stores/fileCache.js:184 | the rendered rate reads back as the tenths it was rendered from |
| FileCache.HitRateExamples | src/lib/stores/fileCache.js:180-186 | no requests give "0.0", three hits and one miss "75.0", one hit "100.0" |
| FileCache.Cache.constructor | src/lib/stores/fileCache.js:6-26 | the cache starts empty with all counters zero |
| FileCache.Cache.EvictOldestEntries | src/lib/stores/fileCache.js:53-72 | the entries become the eviction of the old entries, and size and byte counters match them |
| FileCache.Cache.Get | src/lib/stores/fileCache.js:75-148 | outside the browser null with nothing changed; a fresh hit returns the content, counts a hit and changes nothing else; otherwise an entry `IsExpired` (`isCacheEntryExpired`) finds expired is dropped, a miss is counted, the artifact URL is fetched and the outcome is `MissOutcome` |
| FileCache.Cache.DropExpired | src/lib/stores/fileCache.js:85-88 | an expired entry leaves the map, and size and byte counters drop by one entry and its bytes |
| FileCache.Cache.Fetch | src/lib/stores/fileCache.js:100-147 | a rejected fetch stores nothing and fails with its reason, a non-ok one fails with `HTTP <status>: <statusText>`; ok content is returned and stored only when at most 1 MiB |
| FileCache.Cache.Store | src/lib/stores/fileCache.js:122-138 | storing evicts first and then adds the entry last, stamped and sized |
| FileCache.Cache.Clear | src/lib/stores/fileCache.js:166-177 | the map is emptied and the four counters zeroed |
| FileCache.Cache.GetStats | src/lib/stores/fileCache.js:180-186 | the report's size is the resident count, its byte total the sum of the resident sizes, and its rate the rendered hit rate |
| ServiceWorker.SomeMatchesThree | static/service-worker.js:89 | a class of three patterns matches when one of its patterns does |
| ServiceWorker.ClassificationOrder | static/service-worker.js:87-94 | `GetCacheStrategy` (`getCacheStrategy`): a path is static iff a static pattern matches, data iff no static but a data pattern matches, pages iff only a page pattern matches, default iff none; the maximum age is the class's |
| ServiceWorker.ScriptUnderBrowserIsStatic | static/service-worker.js:25-41 | `/browser/x.js` is static with a 24-hour age, not a page |
| ServiceWorker.SearchIndexIsData | static/service-worker.js:32-35 | the search index is data with a five-minute age |
| ServiceWorker.RootIsPage | static/service-worker.js:36-40 | `/` is a page with a two-minute age |
| ServiceWorker.Stamped | static/service-worker.js:143-153 | the stored copy keeps status, text, body and `date`, and carries `sw-cached-at` set to the store time |
| ServiceWorker.FreshnessMonotone | static/service-worker.js:97-104 | a fresh response stays fresh at an earlier time or under a longer age limit |
| ServiceWorker.StoredCopyFreshness | static/service-worker.js:100-103 | `IsCacheFresh` (`isCacheFresh`) dates a stored copy by the origin `date` header when present and non-empty, otherwise by its store time |
| ServiceWorker.UndatedResponses | static/service-worker.js:97-104 | an unparsable `date`, or a falsy `date` with a blank or unparsable `sw-cached-at`, is never fresh; with neither header the epoch is the stamp |
| ServiceWorker.DataFreshnessWindow | static/service-worker.js:97-104 | a data response stored at T is fresh at T+4 min and T+5 min-1 and stale at T+5 min |
| ServiceWorker.Opened | static/service-worker.js:124 | opening creates the worker's cache when missing and changes no existing cache |
| ServiceWorker.OpenedFacts | static/service-worker.js:124 | opening keeps storage well formed and the worker's entries as they were |
| ServiceWorker.CachePutFacts | static/service-worker.js:156 | storing binds the URL to the response and leaves other URLs and other caches unchanged |
| ServiceWorker.StoredResponseServed | static/service-worker.js:128-156 | an undated response stored now is served as fresh on the next request while its age allows |
| ServiceWorker.Worker.constructor | static/service-worker.js:2 | the worker starts with the given origin and storage |
| ServiceWorker.Worker.HandleFetch | static/service-worker.js:107-180 | non-GET or cross-origin is not intercepted; a fresh copy is served without the network; otherwise the network response is returned and stored stamped only when ok; on network failure the stale copy or a 503 |
| ServiceWorker.Worker.Activate | static/service-worker.js:64-84 | activation deletes exactly the caches not named `pythonmap-v1` |
| ServiceWorker.Worker.HandleMessage | static/service-worker.js:183-208 | CLEAR_CACHE deletes only the worker's cache and replies success; GET_CACHE_INFO opens the worker's cache and replies the version, the number of its URLs and the URLs in order; anything else changes nothing and replies nothing |
| ServiceWorker.DeleteCurrentFacts | static/service-worker.js:187-188 | after deleting the worker's cache its entries are empty and storage is well formed |
| ServiceWorker.DeleteOtherCaches | static/service-worker.js:68-77 | the cleanup loop leaves exactly the storage without the other caches |
| ServiceWorker.DeleteStep | static/service-worker.js:71-75 | each loop step deletes the next name unless it is the worker's own |
| ServiceWorker.ActivationOutcome | static/service-worker.js:68-77 | after activation only the worker's cache can remain, with its old contents |
| ServiceWorker.CacheInfoCount | static/service-worker.js:193-200 | the reported entry count is the number of distinct URLs cached |
| SearchIndexBuilder.LastIndexOf | build-tools/build-search-index.js:86 | the position found holds the character and none follows it |
| SearchIndexBuilder.ExtnameFacts | build-tools/build-search-index.js:86 | `Extname` (Node's `path.extname`): a name has no extension exactly when it has no dot after its first character (or is `..`); otherwise the extension starts at its last dot |
| SearchIndexBuilder.ExtnameAt | build-tools/build-search-index.js:86 | the extension of a name whose last dot is past its start is the text from that dot |
| SearchIndexBuilder.UpperCaseExtension | build-tools/build-search-index.js:86-94 | `Main.PY` is indexed as python |
| SearchIndexBuilder.LastDotCounts | build-tools/build-search-index.js:86-94 | `v1.2.md` is indexed as markdown |
| SearchIndexBuilder.LeadingDotNotIndexed | build-tools/build-search-index.js:86-89 | `.json` has no extension and yields no record |
| SearchIndexBuilder.FileIndexed | build-tools/build-search-index.js:85-107 | a file yields at most one record, and one exactly when it is readable and its lower-cased extension is indexed; the record has the item as title and the file as content, and `KindOf` makes it a plain file exactly for `.txt` and `.json` |
| SearchIndexBuilder.WalkItemsAppend | build-tools/build-search-index.js:58-112 | `WalkItems`/`ItemEntries` (the records of `indexDirectory`'s loop): those of a listing are those of its first part followed by those of the rest |
| SearchIndexBuilder.WalkItemsSnoc | build-tools/build-search-index.js:58-112 | each loop round appends the records of the next item |
| SearchIndexBuilder.NotepadEntriesAppend | build-tools/build-search-index.js:15-32 | the notepad loop's records concatenate over a split of the notepads |
| SearchIndexBuilder.ReadmePosition | build-tools/build-search-index.js:67-69 | the README.md a listing holds, when readable, is an item of that listing named README.md |
| SearchIndexBuilder.WalkItemsAround | build-tools/build-search-index.js:58-112 | the records of a listing are those before an item, that item's, and those after it, in listing order |
| SearchIndexBuilder.SkipUnreadable | build-tools/build-search-index.js:104-115 | an unstattable or special item, an unreadable file, or a directory that can neither be listed nor has a readable README.md contributes nothing and its siblings' records are unchanged |
| SearchIndexBuilder.SkippedContributesNothing | build-tools/build-search-index.js:62-111 | a skipped item yields no record |
| SearchIndexBuilder.UnlistableReadme | build-tools/build-search-index.js:66-83 | a directory `readdir` cannot list still yields its README record when its README.md can be read, and nothing else |
| SearchIndexBuilder.ReadmeIsMarkdown | build-tools/build-search-index.js:85-103 | README.md as a file is indexed as one markdown record |
| SearchIndexBuilder.ReadmeFirstAndTwice | build-tools/build-search-index.js:65-89 | a subdirectory with a readable README gives its readme record first, and the README is indexed again as markdown inside |
| SearchIndexBuilder.LocatedWalk | build-tools/build-search-index.js:54-116 | every record of a walk has a `/browser/` URL whose path names its file under the root |
| SearchIndexBuilder.LocatedItems | build-tools/build-search-index.js:58-112 | the same for the records of every item of a listing |
| SearchIndexBuilder.LocatedItem | build-tools/build-search-index.js:59-111 | the same for the records of one item |
| SearchIndexBuilder.LocatedPaths | build-tools/build-search-index.js:59-67 | the full path is the root, a slash and the relative path |
| SearchIndexBuilder.LocatedReadme | build-tools/build-search-index.js:70-77 | a readme record's URL and path agree |
| SearchIndexBuilder.LocatedFile | build-tools/build-search-index.js:96-103 | a file record's URL and path agree |
| SearchIndexBuilder.IndexedPaths | build-tools/build-search-index.js:54-116 | every walk record's URL is `/browser/` plus a path whose file is under `scripts`, and the root's own README gets no readme record |
| SearchIndexBuilder.WalkHasNoNotepad | build-tools/build-search-index.js:54-116 | the walk makes no notepad record |
| SearchIndexBuilder.NotepadRecordsSound | build-tools/build-search-index.js:15-32 | `NotepadEntries` (the notepad loop of `buildSearchIndex`): every notepad record is typed notepad, at `/notepads/<id>`, from a readable notepad; no more records than notepads |
| SearchIndexBuilder.NotepadRecordsComplete | build-tools/build-search-index.js:15-32 | every notepad whose file is readable has its record |
| SearchIndexBuilder.NotepadsFirst | build-tools/build-search-index.js:15-35 | every notepad record precedes every walk record |
| SearchIndexBuilder.Builder.constructor | build-tools/build-search-index.js:7 | the index starts empty |
| SearchIndexBuilder.Builder.IndexNotepads | build-tools/build-search-index.js:15-32 | the notepad loop appends exactly the records of the readable notepads, in order |
| SearchIndexBuilder.Builder.IndexDirectory | build-tools/build-search-index.js:54-116 | the walk appends exactly the records `Walk` (`indexDirectory`) describes |
| SearchIndexBuilder.Builder.IndexItem | build-tools/build-search-index.js:59-111 | one loop round appends exactly that item's records: a directory's README record comes from its own README.md read, whether or not the directory can be listed |
| SearchIndexBuilder.BuildSearchIndex | build-tools/build-search-index.js:6-52 | an unreadable notepad list aborts the build; otherwise the index is the notepad records followed by the walk of `scripts` |
| SearchStore.LessIrreflexive | src/lib/stores/search.js:58 | no string sorts before itself |
| SearchStore.LessTransitive | src/lib/stores/search.js:58 | the default sort order is transitive |
| SearchStore.LessTotal | src/lib/stores/search.js:58 | two different strings are ordered exactly one way |
| SearchStore.SortedUnique | src/lib/stores/search.js:52-58 | two strictly sorted lists of the same strings are equal |
| SearchStore.Insert | src/lib/stores/search.js:58 | inserting a new string keeps the list strictly sorted and adds exactly that string |
| SearchStore.Sort | src/lib/stores/search.js:58 | sorting a Set's strings gives them all, strictly increasing, with none added |
| SearchStore.ExtractTags | src/lib/stores/search.js:52-58 | extraction fails exactly when some item's `tags` is not a list; otherwise the tags are strictly sorted and hold exactly the tags some item carries |
| SearchStore.TagsDetermined | src/lib/stores/search.js:52-58 | the published tag list depends only on which tags occur, not on item or tag order |
| SearchStore.SearchIndexStore.constructor | src/lib/stores/search.js:6-13 | every store starts empty, unloaded, without error, cache or promise |
| SearchStore.SearchIndexStore.Fail | src/lib/stores/search.js:63-73 | a failure records the message, empties index and tags, clears loaded and the pending promise, keeps the cache |
| SearchStore.SearchIndexStore.Load | src/lib/stores/search.js:15-78 | cached data is returned without a fetch; outside the browser `[]`; a successful load caches the items, marks loaded without error and publishes the sorted tags; a rejection, a non-ok status or a parse error fails with its message and leaves the cache empty, so the next call fetches again; a bad `tags` fails with its message but keeps the parsed data cached, so the next call returns it without a fetch |
| SearchStore.SearchIndexStore.Clear | src/lib/stores/search.js:81-88 | clearing returns every piece of state to its initial value |

## Left out

- Installation precaching, `RUNTIME_CACHE_PATTERNS`, `skipWaiting`, `clients.claim` and console logging are not modelled. They are network or lifecycle calls with no decision logic.
- Concurrency is not modelled: `preloadFiles`' parallel lookups and the reuse of an in-flight promise in `loadSearchIndex`. Calls are sequential. Between sequential calls a pending promise exists only alongside cached data, so `Load` never reaches the in-flight branch.
- The Svelte stores are plain fields. A `set` is an assignment.
- `Blob` sizes are the UTF-8 length of a sequence of Unicode scalar values. Lone surrogates are not modelled.
- FileCache.HitRateTenths: rounds the exact ratio half up. `toFixed(1)` applied to the floating-point quotient could round a value that lies exactly on a half the other way.
- ServiceWorker.Worker.HandleFetch: the unawaited `cache.put` is modelled as completing before the response is returned. Only the parts of a request and response the worker reads are kept.
- `new Date(...)` parsing is abstracted: a header is missing, blank, a date in milliseconds, or unparsable.
- Pattern tests are the string predicates the regular expressions amount to: contains, ends with, equals.
- SearchIndexBuilder: `path.join` normalisation is not modelled. Names come from `readdir`, so they contain no separator and are not `.` or `..`, and `join` is a plain concatenation with `/`. Lower-casing covers ASCII letters only, which is all the extension list can match.
- SearchIndexBuilder.BuildSearchIndex: writing the two JSON copies and copying `notepads.json` (the second read of that file) are left out, as file output.
- FileCache.Cache.Get: the default argument `type = 'script'` is not modelled; callers pass the type, `"script"` included, explicitly.
- SearchStore.SearchIndexStore.Load: the bad-`tags` failure carries the TypeError message V8 gives for the unminified source, "item.tags.forEach is not a function"; the exact text depends on the JavaScript engine and on minification.
- SearchStore.SearchIndexStore.Load: the top-level JSON value is taken to be an array of items. A non-array body, or tags that are not strings, are not modelled.
- SearchStore.Sort: the model uses an insertion sort. `Array.prototype.sort` may use another algorithm, but for distinct strings the strictly sorted result is unique (`SearchStore.SortedUnique`).
- The other files of the repository (Python helper scripts, theme store, build configuration, service-worker registration, page loaders) are not part of this model.
