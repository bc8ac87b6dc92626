/** The offline caching policy of the service worker (static/service-worker.js): requests are
    classified by path into a policy with a maximum age, a cached response is fresh while it is
    younger than that age, and the fetch handler serves fresh copies, refreshes stale ones from
    the network, and falls back to the stale copy or a 503 when the network fails. Activation
    and the admin messages manage the named caches of the Cache Storage. */
module ServiceWorker {
  import opened Common
  import opened OrderedMap

  const CACHE_NAME: string := "pythonmap-v1"
  const CACHE_VERSION: string := "1.0.0"

  datatype Policy = Static | Data | Pages | Default

  /** One regular expression of CACHE_STRATEGIES, as the string test it performs. */
  datatype Pattern = Containing(text: string) | Ending(text: string) | Exactly(text: string)

  predicate Matches(p: Pattern, path: string) {
    match p
    case Containing(t) => Contains(path, t)
    case Ending(t) => EndsWith(path, t)
    case Exactly(t) => path == t
  }

  /** `patterns.some(pattern => pattern.test(path))`. */
  predicate SomeMatches(patterns: seq<Pattern>, path: string) {
    patterns != [] && (Matches(patterns[0], path) || SomeMatches(patterns[1..], path))
  }

  datatype Strategy = Strategy(name: Policy, maxAge: nat, patterns: seq<Pattern>)

  /** CACHE_STRATEGIES in declaration order, the order `Object.entries` visits them. */
  const STRATEGIES: seq<Strategy> := [
    Strategy(Static, 24 * 60 * 60 * 1000, [Containing("/_app/"), Ending(".js"), Ending(".css")]),
    Strategy(Data, 5 * 60 * 1000,
      [Containing("/data/scripts/"), Containing("/data/readmes/"), Ending("/data/search_index.json")]),
    Strategy(Pages, 2 * 60 * 1000, [Exactly("/"), Containing("/notepads"), Containing("/browser")])
  ]

  const DEFAULT_STRATEGY: Strategy := Strategy(Default, 60 * 1000, [])

  /** The first strategy of `table` with a matching pattern, else the default. */
  function FirstMatching(table: seq<Strategy>, path: string): Strategy {
    if table == [] then DEFAULT_STRATEGY
    else if SomeMatches(table[0].patterns, path) then table[0]
    else FirstMatching(table[1..], path)
  }

  /** `getCacheStrategy(pathname)`. */
  function GetCacheStrategy(path: string): Strategy {
    FirstMatching(STRATEGIES, path)
  }

  /** The three classes, each stated on its own. */
  predicate IsStaticPath(path: string) {
    Contains(path, "/_app/") || EndsWith(path, ".js") || EndsWith(path, ".css")
  }

  predicate IsDataPath(path: string) {
    Contains(path, "/data/scripts/") || Contains(path, "/data/readmes/")
    || EndsWith(path, "/data/search_index.json")
  }

  predicate IsPagePath(path: string) {
    path == "/" || Contains(path, "/notepads") || Contains(path, "/browser")
  }

  /** How long a response of each class stays fresh, in milliseconds. */
  function MaxAge(p: Policy): nat {
    match p
    case Static => 86400000
    case Data => 300000
    case Pages => 120000
    case Default => 60000
  }

  /** A list of three patterns matches when one of the three does. */
  lemma SomeMatchesThree(a: Pattern, b: Pattern, c: Pattern, path: string)
    ensures SomeMatches([a, b, c], path) <==> Matches(a, path) || Matches(b, path) || Matches(c, path)
  {
    assert [a, b, c][1..] == [b, c];
    assert [b, c][1..] == [c];
    assert [c][1..] == [];
    assert !SomeMatches([], path);
    assert SomeMatches([c], path) <==> Matches(c, path);
    assert SomeMatches([b, c], path) <==> Matches(b, path) || Matches(c, path);
  }

  /** Classification tries static, then data, then pages, and picks the first class any of
      whose patterns matches; the class fixes the maximum age. */
  lemma ClassificationOrder(path: string)
    ensures GetCacheStrategy(path).name == Static <==> IsStaticPath(path)
    ensures GetCacheStrategy(path).name == Data <==> !IsStaticPath(path) && IsDataPath(path)
    ensures GetCacheStrategy(path).name == Pages <==>
      !IsStaticPath(path) && !IsDataPath(path) && IsPagePath(path)
    ensures GetCacheStrategy(path).name == Default <==>
      !IsStaticPath(path) && !IsDataPath(path) && !IsPagePath(path)
    ensures GetCacheStrategy(path).maxAge == MaxAge(GetCacheStrategy(path).name)
  {
    var t := STRATEGIES;
    SomeMatchesThree(Containing("/_app/"), Ending(".js"), Ending(".css"), path);
    SomeMatchesThree(Containing("/data/scripts/"), Containing("/data/readmes/"),
      Ending("/data/search_index.json"), path);
    SomeMatchesThree(Exactly("/"), Containing("/notepads"), Containing("/browser"), path);
    assert t[0].patterns == [Containing("/_app/"), Ending(".js"), Ending(".css")];
    assert t[1].patterns ==
      [Containing("/data/scripts/"), Containing("/data/readmes/"), Ending("/data/search_index.json")];
    assert t[2].patterns == [Exactly("/"), Containing("/notepads"), Containing("/browser")];
    assert t[1..] == [t[1], t[2]];
    assert t[1..][1..] == [t[2]];
    assert t[1..][1..][1..] == [];
    assert FirstMatching(t[1..][1..][1..], path) == DEFAULT_STRATEGY;
    var r2 := FirstMatching(t[1..][1..], path);
    assert r2 == if SomeMatches(t[2].patterns, path) then t[2] else DEFAULT_STRATEGY;
    var r1 := FirstMatching(t[1..], path);
    assert r1 == if SomeMatches(t[1].patterns, path) then t[1] else r2;
    assert GetCacheStrategy(path) == if SomeMatches(t[0].patterns, path) then t[0] else r1;
  }

  /** A script under /browser is static, not a page: the static class is tried first. */
  lemma ScriptUnderBrowserIsStatic()
    ensures GetCacheStrategy("/browser/x.js").name == Static
    ensures GetCacheStrategy("/browser/x.js").maxAge == 86400000
  {
    ClassificationOrder("/browser/x.js");
    assert EndsWith("/browser/x.js", ".js");
  }

  /** The search index is data and stays fresh for five minutes. */
  lemma SearchIndexIsData()
    ensures GetCacheStrategy("/data/search_index.json").name == Data
    ensures GetCacheStrategy("/data/search_index.json").maxAge == 300000
  {
    var index := "/data/search_index.json";
    MissingChar(index, "/_app/", 3);
    LastCharDiffers(index, ".js");
    LastCharDiffers(index, ".css");
    assert EndsWith(index, "/data/search_index.json");
    ClassificationOrder(index);
  }

  /** The site root is a page. */
  lemma RootIsPage()
    ensures GetCacheStrategy("/").name == Pages
    ensures GetCacheStrategy("/").maxAge == 120000
  {
    ClassificationOrder("/");
    MissingChar("/", "/_app/", 1);
    MissingChar("/", "/data/scripts/", 1);
    MissingChar("/", "/data/readmes/", 1);
  }

  // ---------------------------------------------------------------------------------------
  // Freshness

  /** A header as `Headers.get` returns it, classified by what `new Date(...)` makes of it:
      absent (`null`), the empty string, a string that parses to a time in milliseconds, or a
      non-empty string that does not parse. */
  datatype Header = Missing | Blank | DateValue(ms: int) | NotADate

  /** A response as the worker sees it: status line, body, and the two headers it reads. */
  datatype Response = Response(status: int, statusText: string, body: string, date: Header,
                               cachedAt: Header)

  /** The header counts as true for `||`: a non-empty string. */
  predicate Truthy(h: Header) {
    h.DateValue? || h.NotADate?
  }

  /** `new Date(h).getTime()`, with None for NaN: `new Date(null)` is the epoch, while the empty
      string and an unparsable one are invalid dates. */
  function TimeOf(h: Header): Option<int> {
    match h
    case Missing => Some(0)
    case Blank => None
    case DateValue(ms) => Some(ms)
    case NotADate => None
  }

  /** The time a cached response is dated by: its `date` header, or `sw-cached-at` when that is
      missing or empty. */
  function Stamp(r: Response): Option<int> {
    TimeOf(if Truthy(r.date) then r.date else r.cachedAt)
  }

  /** `isCacheFresh(cachedResponse, maxAge)` at time `now`: a response exists, its stamp is a
      valid date, and it is strictly younger than `maxAge`. A NaN difference is never less. */
  predicate IsCacheFresh(cached: Option<Response>, maxAge: int, now: int) {
    cached.Some? && Stamp(cached.value).Some? && now - Stamp(cached.value).value < maxAge
  }

  /** The copy the worker stores: the network response with `sw-cached-at` set to `at`. */
  function Stamped(r: Response, at: int): (c: Response)
    ensures c.status == r.status && c.statusText == r.statusText && c.body == r.body
    ensures c.date == r.date && c.cachedAt == DateValue(at)
  {
    r.(cachedAt := DateValue(at))
  }

  /** Freshness can only be lost as time passes, and a longer maximum age keeps more fresh. */
  lemma FreshnessMonotone(cached: Option<Response>, maxAge: int, maxAge': int, now: int, now': int)
    requires now' <= now && maxAge <= maxAge'
    requires IsCacheFresh(cached, maxAge, now)
    ensures IsCacheFresh(cached, maxAge', now')
  {
  }

  /** A stored copy is dated by the origin's `date` header when it sent one; only without it does
      the worker's own `sw-cached-at` stamp decide, and then the copy is fresh exactly while less
      than `maxAge` has passed since it was stored. */
  lemma StoredCopyFreshness(r: Response, at: int, maxAge: int, now: int)
    ensures Truthy(r.date) ==>
      (IsCacheFresh(Some(Stamped(r, at)), maxAge, now) <==>
       r.date.DateValue? && now - r.date.ms < maxAge)
    ensures !Truthy(r.date) ==> (IsCacheFresh(Some(Stamped(r, at)), maxAge, now) <==> now - at < maxAge)
  {
  }

  /** A response whose chosen header does not parse is never fresh, whatever the age limit; one
      with neither header is dated at the epoch. */
  lemma UndatedResponses(r: Response, maxAge: int, now: int)
    ensures r.date == NotADate ==> !IsCacheFresh(Some(r), maxAge, now)
    ensures !Truthy(r.date) && r.cachedAt == Blank ==> !IsCacheFresh(Some(r), maxAge, now)
    ensures !Truthy(r.date) && r.cachedAt == NotADate ==> !IsCacheFresh(Some(r), maxAge, now)
    ensures !Truthy(r.date) && r.cachedAt == Missing ==>
      (IsCacheFresh(Some(r), maxAge, now) <==> now < maxAge)
  {
  }

  /** A data file (the search index, say) stored at `t` without a `date` header is still served
      from the cache four minutes later and one millisecond before five minutes, but not at
      exactly five minutes. */
  lemma DataFreshnessWindow(path: string, r: Response, t: int)
    requires !IsStaticPath(path) && IsDataPath(path) && !Truthy(r.date)
    ensures var maxAge := GetCacheStrategy(path).maxAge;
      IsCacheFresh(Some(Stamped(r, t)), maxAge, t + 4 * 60 * 1000)
      && IsCacheFresh(Some(Stamped(r, t)), maxAge, t + 5 * 60 * 1000 - 1)
      && !IsCacheFresh(Some(Stamped(r, t)), maxAge, t + 5 * 60 * 1000)
  {
    ClassificationOrder(path);
  }

  // ---------------------------------------------------------------------------------------
  // The Cache Storage

  /** A named cache: request URLs to stored responses, in insertion order. */
  type Cache = seq<Pair<Response>>

  /** `caches`: cache names to caches, in creation order. */
  type Storage = seq<Pair<Cache>>

  /** The storage after `caches.open(CACHE_NAME)`, which creates the cache when it is missing. */
  function Opened(s: Storage): (r: Storage)
    ensures CACHE_NAME in KeySet(r)
    ensures KeySet(r) == KeySet(s) + {CACHE_NAME}
    ensures forall name :: name in KeySet(s) ==> Find(r, name) == Find(s, name)
    ensures KeyDistinct(s) ==> KeyDistinct(r)
  {
    if CACHE_NAME in KeySet(s) then s
    else
      AppendFacts(s, CACHE_NAME, [], CACHE_NAME);
      forall name | name in KeySet(s) ensures Find(s + [Pair(CACHE_NAME, [])], name) == Find(s, name) {
        AppendFacts(s, CACHE_NAME, [], name);
      }
      s + [Pair(CACHE_NAME, [])]
  }

  /** The worker's own cache, empty when it does not exist. */
  function Entries(s: Storage): Cache {
    match Find(s, CACHE_NAME)
    case Some(c) => c
    case None => []
  }

  /** `cache.put(url, r)` on the worker's own cache: the other caches, and the order of the
      caches, stay as they are. */
  function CachePut(s: Storage, url: string, r: Response): Storage {
    Update(s, CACHE_NAME, Put(Entries(s), url, r))
  }

  /** Well-formed storage: distinct cache names, and distinct URLs in the worker's cache. */
  predicate WellFormed(s: Storage) {
    KeyDistinct(s) && KeyDistinct(Entries(s))
  }

  /** Opening the worker's cache keeps storage well-formed and leaves existing contents alone. */
  lemma OpenedFacts(s: Storage)
    requires WellFormed(s)
    ensures WellFormed(Opened(s))
    ensures Entries(Opened(s)) == Entries(s)
  {
  }

  /** Storing a response binds its URL to it in the worker's cache, keeps every other URL and
      every other cache, and keeps storage well-formed. */
  lemma CachePutFacts(s: Storage, url: string, r: Response)
    requires WellFormed(s) && CACHE_NAME in KeySet(s)
    ensures WellFormed(CachePut(s, url, r))
    ensures KeySet(CachePut(s, url, r)) == KeySet(s)
    ensures Find(Entries(CachePut(s, url, r)), url) == Some(r)
    ensures forall u :: u != url ==> Find(Entries(CachePut(s, url, r)), u) == Find(Entries(s), u)
    ensures forall name :: name != CACHE_NAME ==> Find(CachePut(s, url, r), name) == Find(s, name)
  {
    var c := Put(Entries(s), url, r);
    assert Entries(CachePut(s, url, r)) == c;
    forall u | u != url ensures Find(c, u) == Find(Entries(s), u) {
      FindPutOther(Entries(s), url, r, u);
    }
  }

  /** A response the worker stored without an origin `date` is served from the cache, with no
      network fetch, for a later request of the same URL exactly while less than the maximum
      age has passed since it was stored. */
  lemma StoredResponseServed(s: Storage, url: string, r: Response, at: int, maxAge: int, now: int)
    requires WellFormed(s) && CACHE_NAME in KeySet(s) && !Truthy(r.date)
    ensures IsCacheFresh(Find(Entries(CachePut(s, url, Stamped(r, at))), url), maxAge, now)
      <==> now - at < maxAge
  {
    CachePutFacts(s, url, Stamped(r, at));
  }

  // ---------------------------------------------------------------------------------------
  // The worker

  /** The parts of a fetch event's request the handler reads. */
  datatype Request = Request(httpMethod: string, origin: string, pathname: string, url: string)

  /** What `fetch(request)` gave: a rejected promise, or a response of any status. */
  datatype NetworkResult = NetworkError | Fetched(response: Response)

  /** Whether the handler called `respondWith`, and with what. */
  datatype Handling = NotIntercepted | Respond(response: Response)

  /** The answer to a message on its reply port. */
  datatype Reply = Cleared(success: bool) | Info(version: string, entries: nat, keys: seq<string>)

  /** The response built when the network fails and nothing is cached. */
  const SERVICE_UNAVAILABLE: Response :=
    Response(503, "Service Unavailable", "Network error and no cached version available", Missing,
             Missing)

  /** Only same-origin GET requests are handled; the rest go to the network untouched. */
  predicate Intercepted(request: Request, origin: string) {
    request.httpMethod == "GET" && request.origin == origin
  }

  class Worker {
    /** `self.location.origin`. */
    const origin: string
    /** The Cache Storage the handlers read and change. */
    var storage: Storage

    predicate Valid()
      reads this
    {
      WellFormed(storage)
    }

    constructor (origin: string, storage: Storage)
      requires WellFormed(storage)
      ensures Valid()
      ensures this.origin == origin && this.storage == storage
    {
      this.origin := origin;
      this.storage := storage;
    }

    /** The `fetch` handler. `now` is the clock when freshness is judged, `later` when the copy is
        stamped, and `network` what `fetch(request)` gives; `fetched` says whether the network was
        asked at all. */
    method HandleFetch(request: Request, now: int, later: int, network: NetworkResult)
      returns (handling: Handling, fetched: bool)
      requires Valid()
      modifies this
      ensures Valid()
      ensures !Intercepted(request, origin) ==>
        handling == NotIntercepted && !fetched && storage == old(storage)
      ensures Intercepted(request, origin) ==>
        var ready := Opened(old(storage));
        var cached := Find(Entries(ready), request.url);
        var isFresh := IsCacheFresh(cached, GetCacheStrategy(request.pathname).maxAge, now);
        && fetched == !isFresh
        && (isFresh ==> handling == Respond(cached.value) && storage == ready)
        && (!isFresh && network.NetworkError? ==>
              storage == ready
              && handling == Respond(if cached.Some? then cached.value else SERVICE_UNAVAILABLE))
        && (!isFresh && network.Fetched? ==>
              handling == Respond(network.response)
              && storage == if IsOk(network.response.status)
                            then CachePut(ready, request.url, Stamped(network.response, later))
                            else ready)
    {
      if request.httpMethod != "GET" || request.origin != origin {
        return NotIntercepted, false;
      }
      var strategy := GetCacheStrategy(request.pathname);
      OpenedFacts(storage);
      storage := Opened(storage);
      var cached := Find(Entries(storage), request.url);
      if cached.Some? && IsCacheFresh(cached, strategy.maxAge, now) {
        return Respond(cached.value), false;
      }
      fetched := true;
      match network {
        case NetworkError =>
          if cached.Some? {
            handling := Respond(cached.value);
          } else {
            handling := Respond(SERVICE_UNAVAILABLE);
          }
        case Fetched(response) =>
          if IsOk(response.status) {
            CachePutFacts(storage, request.url, Stamped(response, later));
            storage := CachePut(storage, request.url, Stamped(response, later));
          }
          handling := Respond(response);
      }
    }

    /** The `activate` handler: every cache except the worker's own is deleted, one name at a
        time in the order `caches.keys()` lists them. */
    method Activate()
      requires Valid()
      modifies this
      ensures Valid()
      ensures storage == Without(old(storage), KeySet(old(storage)) - {CACHE_NAME})
    {
      storage := DeleteOtherCaches(storage);
    }

    /** The `message` handler: CLEAR_CACHE deletes the worker's cache and acknowledges;
        GET_CACHE_INFO opens it and reports the version and its URLs; anything else is
        ignored. */
    method HandleMessage(action: string) returns (reply: Option<Reply>)
      requires Valid()
      modifies this
      ensures Valid()
      ensures action == "CLEAR_CACHE" ==>
        reply == Some(Cleared(true)) && storage == Delete(old(storage), CACHE_NAME)
      ensures action == "GET_CACHE_INFO" ==>
        storage == Opened(old(storage))
        && reply == Some(Info(CACHE_VERSION, |Entries(old(storage))|, Keys(Entries(old(storage)))))
      ensures action != "CLEAR_CACHE" && action != "GET_CACHE_INFO" ==>
        reply == None && storage == old(storage)
    {
      if action == "CLEAR_CACHE" {
        DeleteCurrentFacts(storage);
        storage := Delete(storage, CACHE_NAME);
        reply := Some(Cleared(true));
      } else if action == "GET_CACHE_INFO" {
        OpenedFacts(storage);
        storage := Opened(storage);
        var cache := Entries(storage);
        reply := Some(Info(CACHE_VERSION, |cache|, Keys(cache)));
      } else {
        reply := None;
      }
    }
  }

  /** Deleting the worker's cache leaves well-formed storage with that cache empty. */
  lemma DeleteCurrentFacts(s: Storage)
    requires WellFormed(s)
    ensures WellFormed(Delete(s, CACHE_NAME))
    ensures Entries(Delete(s, CACHE_NAME)) == []
  {
  }

  /** The cleanup loop of `activate` over `caches.keys()`. */
  method DeleteOtherCaches(start: Storage) returns (s: Storage)
    requires WellFormed(start)
    ensures WellFormed(s)
    ensures s == Without(start, KeySet(start) - {CACHE_NAME})
  {
    var names := Keys(start);
    s := start;
    var i := 0;
    assert KeySet(start[..0]) - {CACHE_NAME} == {};
    WithoutNothing(start);
    while i < |names|
      invariant 0 <= i <= |names|
      invariant s == Without(start, KeySet(start[..i]) - {CACHE_NAME})
    {
      DeleteStep(start, start[..i], start[i]);
      PrefixSnoc(start, i);
      if names[i] != CACHE_NAME {
        s := Delete(s, names[i]);
      }
      i := i + 1;
    }
    assert start[..|names|] == start;
    FindWithout(start, KeySet(start) - {CACHE_NAME}, CACHE_NAME);
  }

  /** One step of the cleanup loop: the next name joins the deleted ones unless it is the
      worker's own. */
  lemma GoneSnoc(done: Storage, p: Pair<Cache>)
    ensures KeySet(done + [p]) - {CACHE_NAME} ==
      if p.key == CACHE_NAME then KeySet(done) - {CACHE_NAME}
      else (KeySet(done) - {CACHE_NAME}) + {p.key}
  {
    KeySetSnoc(done, p);
  }

  /** One step of the cleanup loop: the next name is deleted unless it is the worker's own. */
  lemma DeleteStep(s: Storage, done: Storage, p: Pair<Cache>)
    ensures var gone := KeySet(done) - {CACHE_NAME};
      Without(s, KeySet(done + [p]) - {CACHE_NAME}) ==
        if p.key == CACHE_NAME then Without(s, gone) else Delete(Without(s, gone), p.key)
  {
    GoneSnoc(done, p);
    if p.key != CACHE_NAME {
      WithoutOneMore(s, KeySet(done) - {CACHE_NAME}, p.key);
    }
  }

  /** After activation only the worker's cache can remain, holding what it held before. */
  lemma ActivationOutcome(s: Storage)
    ensures KeySet(Without(s, KeySet(s) - {CACHE_NAME})) == KeySet(s) * {CACHE_NAME}
    ensures Find(Without(s, KeySet(s) - {CACHE_NAME}), CACHE_NAME) == Find(s, CACHE_NAME)
  {
    FindWithout(s, KeySet(s) - {CACHE_NAME}, CACHE_NAME);
  }

  /** GET_CACHE_INFO's `entries` is the number of distinct URLs the worker's cache holds. */
  lemma CacheInfoCount(s: Storage)
    requires WellFormed(s)
    ensures |Keys(Entries(s))| == |Entries(s)| == |KeySet(Entries(s))|
  {
    DistinctCard(Entries(s));
  }
}
